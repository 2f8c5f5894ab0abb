/**
 Restoring a backup is destructive and one-shot for the invocation that asked
 for it: it must not come back on a config reload, on reopening the database or
 in the image a restart executes.
 */
module Restore {
  import opened Options
  import opened CommandLine

  const RESTORE_FLAG := CommandLine.Flag("--restore-backup")

  const LATEST: string := "0"

  lemma {:induction false} NoEquals(s: string)
    requires forall i :: 0 <= i < |s| ==> s[i] != '='
    ensures BeforeEquals(s) == s
  {
    if s != "" {
      NoEquals(s[1..]);
    }
  }

  lemma RestoreFlagValid()
    ensures RESTORE_FLAG.Valid()
  {
    NoEquals(RESTORE_FLAG.name);
  }

  /** The arguments of the next image. */
  method StripRestoreBackup(args: seq<string>) returns (kept: seq<string>)
    ensures kept == RESTORE_FLAG.Stripped(args)
  {
    RestoreFlagValid();
    kept := StripFlag(RESTORE_FLAG, args);
  }

  // The layered configuration

  const RESTORE_KEY: string := "database_restore_backup"

  /** `Nothing` is what an override merges whose line holds no value under its literal path. */
  datatype Value = Switch(b: bool) | Text(s: string) | List(items: seq<string>) | Nothing

  type Config = map<string, Value>

  /** The arguments other than the restore flag. */
  datatype Plain = Plain(readOnly: bool, maintenance: bool, execute: seq<string>, test: seq<string>, options: seq<string>)

  datatype Args = Args(restoreBackup: Option<string>, plain: Plain)

  /** Keeps an existing value. */
  function Join(c: Config, key: string, v: Value): Config {
    if key in c then c else c[key := v]
  }

  /** Appends to an existing list. */
  function Adjoin(c: Config, key: string, items: seq<string>): Config {
    c[key := List((if key in c && c[key].List? then c[key].items else []) + items)]
  }

  /**
   One `-O key=value`, read as a line of the config file. `parse` is `None` for a
   line that is no TOML, and otherwise what the line holds under the path: a path
   spelled with blanks or quotes finds `Nothing`, which is merged all the same.
   */
  function Override(c: Config, option: string, parse: string -> Option<Value>): Result<Config> {
    var path, text := BeforeEquals(option), AfterEquals(option);
    if path == option || path == "" || text == "" || path == RESTORE_KEY then Err
    else
      var v := parse(option);
      if v.None? then Err else Ok(c[path := v.value])
  }

  function Overrides(c: Config, options: seq<string>, parse: string -> Option<Value>): Result<Config>
    decreases |options|
  {
    if options == [] then Ok(c)
    else
      var r := Override(c, options[0], parse);
      if r.Err? then Err else Overrides(r.value, options[1..], parse)
  }

  /** The flags that fill in single values. */
  function Filled(c: Config, args: Args): Config {
    var c1 := if args.restoreBackup.Some? then Join(c, RESTORE_KEY, Text(args.restoreBackup.value)) else c;
    var c2 := if args.plain.readOnly then Join(c1, "rocksdb_read_only", Switch(true)) else c1;
    if args.plain.maintenance || args.plain.readOnly
    then Join(Join(Join(c2, "maintenance", Switch(true)), "listening", Switch(false)), "startup_netburst", Switch(false))
    else c2
  }

  /** What the flags set before any individual override. */
  function Flagged(c: Config, args: Args): Config {
    Adjoin(Adjoin(Filled(c, args), "admin_execute", args.plain.execute), "test", args.plain.test)
  }

  function Updated(c: Config, args: Args, parse: string -> Option<Value>): Result<Config> {
    if ("maintenance" in c && c["maintenance"] == Switch(true)) || RESTORE_KEY in c then Err
    else Overrides(Flagged(c, args), args.plain.options, parse)
  }

  method Update(raw: Config, args: Args, parse: string -> Option<Value>) returns (r: Result<Config>)
    ensures r == Updated(raw, args, parse)
  {
    if "maintenance" in raw && raw["maintenance"] == Switch(true) {
      return Err;
    }
    if RESTORE_KEY in raw {
      return Err;
    }
    var c := raw;
    if args.restoreBackup.Some? {
      c := Join(c, RESTORE_KEY, Text(args.restoreBackup.value));
    }
    if args.plain.readOnly {
      c := Join(c, "rocksdb_read_only", Switch(true));
    }
    if args.plain.maintenance || args.plain.readOnly {
      c := Join(c, "maintenance", Switch(true));
      c := Join(c, "listening", Switch(false));
      c := Join(c, "startup_netburst", Switch(false));
    }
    c := Adjoin(c, "admin_execute", args.plain.execute);
    c := Adjoin(c, "test", args.plain.test);
    var options := args.plain.options;
    assert options[0..] == options;
    for i := 0 to |options|
      invariant Overrides(c, options[i..], parse) == Updated(raw, args, parse)
    {
      assert options[i..][1..] == options[i + 1..] && options[i..][0] == options[i];
      var path, text := BeforeEquals(options[i]), AfterEquals(options[i]);
      if path == options[i] || path == "" || text == "" {
        return Err;
      }
      if path == RESTORE_KEY {
        return Err;
      }
      var v := parse(options[i]);
      if v.None? {
        return Err;
      }
      c := c[path := v.value];
    }
    r := Ok(c);
  }

  lemma {:induction false} OverridesKeep(c: Config, options: seq<string>, parse: string -> Option<Value>)
    requires Overrides(c, options, parse).Ok?
    ensures var c' := Overrides(c, options, parse).value;
            && (RESTORE_KEY in c' <==> RESTORE_KEY in c)
            && (RESTORE_KEY in c ==> c'[RESTORE_KEY] == c[RESTORE_KEY])
    decreases |options|
  {
    if options != [] {
      OverridesKeep(Override(c, options[0], parse).value, options[1..], parse);
    }
  }

  /** Only the argument itself can put the restore key into the configuration. */
  lemma OnlyTheFlagSetsRestore(c: Config, args: Args, parse: string -> Option<Value>)
    requires Updated(c, args, parse).Ok?
    ensures var c' := Updated(c, args, parse).value;
            && (RESTORE_KEY in c' <==> args.restoreBackup.Some?)
            && (args.restoreBackup.Some? ==> c'[RESTORE_KEY] == Text(args.restoreBackup.value))
  {
    var c1 := Flagged(c, args);
    assert RESTORE_KEY in c1 <==> args.restoreBackup.Some?;
    assert args.restoreBackup.Some? ==> c1[RESTORE_KEY] == Text(args.restoreBackup.value);
    OverridesKeep(c1, args.plain.options, parse);
  }

  // What the layers add up to

  /** A well-formed override of a key other than the restore key. */
  predicate Acceptable(option: string, parse: string -> Option<Value>) {
    var path := BeforeEquals(option);
    path != option && path != "" && AfterEquals(option) != "" && path != RESTORE_KEY && parse(option).Some?
  }

  /** The last override of `key`. */
  function LastFor(options: seq<string>, key: string): Option<string> {
    if options == [] then None
    else
      var later := LastFor(options[1..], key);
      if later.None? && BeforeEquals(options[0]) == key then Some(options[0]) else later
  }

  lemma {:induction false} OverridesExact(c: Config, options: seq<string>, parse: string -> Option<Value>, key: string)
    ensures var r := Overrides(c, options, parse);
            var last := LastFor(options, key);
            && (r.Ok? <==> forall o <- options :: Acceptable(o, parse))
            && (r.Ok? ==> (key in r.value <==> last.Some? || key in c))
            && (r.Ok? && last.Some? ==> parse(last.value) == Some(r.value[key]))
            && (r.Ok? && last.None? && key in c ==> r.value[key] == c[key])
    decreases |options|
  {
    if options != [] {
      assert options == [options[0]] + options[1..];
      var r := Override(c, options[0], parse);
      assert options[0] in options && (r.Ok? <==> Acceptable(options[0], parse));
      if r.Ok? {
        OverridesExact(r.value, options[1..], parse, key);
      }
    }
  }

  /** What the flags ask for under a key, lists aside. */
  function FlagValue(args: Args, key: string): Option<Value> {
    var quiet := args.plain.maintenance || args.plain.readOnly;
    if key == RESTORE_KEY && args.restoreBackup.Some? then Some(Text(args.restoreBackup.value))
    else if key == "rocksdb_read_only" && args.plain.readOnly then Some(Switch(true))
    else if key == "maintenance" && quiet then Some(Switch(true))
    else if (key == "listening" || key == "startup_netburst") && quiet then Some(Switch(false))
    else None
  }

  predicate IsList(key: string) {
    key == "admin_execute" || key == "test"
  }

  /** The files outrank the flags. */
  function Layered(c: Config, args: Args, key: string): Option<Value> {
    if key in c then Some(c[key]) else FlagValue(args, key)
  }

  lemma FilledExact(c: Config, args: Args, key: string)
    ensures key in Filled(c, args) <==> Layered(c, args, key).Some?
    ensures key in Filled(c, args) ==> Some(Filled(c, args)[key]) == Layered(c, args, key)
  {
  }

  lemma AdjoinKeeps(c: Config, execute: seq<string>, test: seq<string>, key: string)
    requires !IsList(key)
    ensures var c' := Adjoin(Adjoin(c, "admin_execute", execute), "test", test);
            (key in c' <==> key in c) && (key in c ==> c'[key] == c[key])
  {
  }

  lemma FlaggedExact(c: Config, args: Args, key: string)
    requires !IsList(key)
    ensures key in Flagged(c, args) <==> Layered(c, args, key).Some?
    ensures key in Flagged(c, args) ==> Some(Flagged(c, args)[key]) == Layered(c, args, key)
  {
    FilledExact(c, args, key);
    AdjoinKeeps(Filled(c, args), args.plain.execute, args.plain.test, key);
  }

  function ItemsOf(c: Config, key: string): seq<string> {
    if key in c && c[key].List? then c[key].items else []
  }

  lemma AdjoinExact(c: Config, execute: seq<string>, test: seq<string>)
    ensures var c' := Adjoin(Adjoin(c, "admin_execute", execute), "test", test);
            && "admin_execute" in c' && c'["admin_execute"] == List(ItemsOf(c, "admin_execute") + execute)
            && "test" in c' && c'["test"] == List(ItemsOf(c, "test") + test)
  {
  }

  lemma FlaggedLists(c: Config, args: Args)
    ensures var c' := Flagged(c, args);
            && "admin_execute" in c' && c'["admin_execute"] == List(ItemsOf(c, "admin_execute") + args.plain.execute)
            && "test" in c' && c'["test"] == List(ItemsOf(c, "test") + args.plain.test)
  {
    FilledExact(c, args, "admin_execute");
    FilledExact(c, args, "test");
    AdjoinExact(Filled(c, args), args.plain.execute, args.plain.test);
  }

  /** In an accepted configuration, commands and tests of the command line come behind those of the files. */
  lemma ListsAppended(c: Config, args: Args, parse: string -> Option<Value>, key: string)
    requires Updated(c, args, parse).Ok? && IsList(key) && LastFor(args.plain.options, key).None?
    ensures var c' := Updated(c, args, parse).value;
            var more := if key == "test" then args.plain.test else args.plain.execute;
            key in c' && c'[key] == List(ItemsOf(c, key) + more)
  {
    FlaggedLists(c, args);
    OverridesExact(Flagged(c, args), args.plain.options, parse, key);
  }

  /**
   An update is refused exactly when the files turn maintenance on or hold the
   restore key, or some override is malformed. Otherwise the last override of a
   key wins, without one what the files say, and only then what the flags ask.
   */
  lemma UpdatedExact(c: Config, args: Args, parse: string -> Option<Value>, key: string)
    ensures var r := Updated(c, args, parse);
            r.Ok? <==> && RESTORE_KEY !in c
                       && ("maintenance" in c ==> c["maintenance"] != Switch(true))
                       && forall o <- args.plain.options :: Acceptable(o, parse)
    ensures var r := Updated(c, args, parse);
            var last := LastFor(args.plain.options, key);
            r.Ok? && (last.Some? || !IsList(key)) ==>
              (if key in r.value then Some(r.value[key]) else None)
              == if last.Some? then parse(last.value) else Layered(c, args, key)
  {
    OverridesExact(Flagged(c, args), args.plain.options, parse, key);
    if !IsList(key) {
      FlaggedExact(c, args, key);
    }
  }

  // A server's life, across reloads, reopened databases and restarts

  /** How arguments and override lines are understood beyond the restore flag. */
  datatype Reader = Reader(clap: seq<Token> -> Plain, parse: string -> Option<Value>)

  /** The backup a command line asks for; without a value the latest one. */
  function Asked(argv: seq<string>): Option<string> {
    FirstValue(RESTORE_FLAG.Tokens(argv), LATEST)
  }

  function ParseArgs(reader: Reader, argv: seq<string>): Args {
    var ts := RESTORE_FLAG.Tokens(argv);
    Args(Asked(argv), reader.clap(Others(ts)))
  }

  /** The retained sources replay the command line without the flag. */
  function Reloaded(reader: Reader, files: Config, argv: seq<string>): Result<Config> {
    Updated(files, ParseArgs(reader, argv).(restoreBackup := None), reader.parse)
  }

  /** Startup adds the flag on top of those sources. */
  function Started(reader: Reader, files: Config, argv: seq<string>): Result<Config> {
    var r := Reloaded(reader, files, argv);
    var restore := ParseArgs(reader, argv).restoreBackup;
    if r.Ok? && restore.Some? then Ok(Join(r.value, RESTORE_KEY, Text(restore.value))) else r
  }

  /** The value behind the flag, the one behind its equals sign, or the latest backup. */
  lemma AskedExact(pre: seq<string>, value: string, post: seq<string>)
    requires forall arg <- pre :: !RESTORE_FLAG.Matches(arg)
    ensures !LooksLikeFlag(value) ==> Asked(pre + ([RESTORE_FLAG.name, value] + post)) == Some(value)
    ensures Asked(pre + ([RESTORE_FLAG.name + "=" + value] + post)) == Some(value)
    ensures post == [] || LooksLikeFlag(post[0]) ==> Asked(pre + ([RESTORE_FLAG.name] + post)) == Some(LATEST)
    ensures Asked(pre) == None
  {
    RestoreFlagValid();
    FirstValueExact(RESTORE_FLAG, pre, value, post, LATEST);
  }

  /**
   One process image: its arguments, its configuration, whether it has claimed
   its restore, and the backups restored so far by it and those before it.
   */
  datatype World = World(argv: seq<string>, config: Config, claimed: bool, restored: seq<string>)

  /** `files` is whatever the files and the environment hold at that moment. */
  datatype Step = OpenDatabase | ReloadConfig(files: Config) | Restart(files: Config)

  /** The first image; `None` when the configuration is refused and the process exits. */
  function Boot(reader: Reader, files: Config, argv: seq<string>, restored: seq<string>): Option<World> {
    var r := Started(reader, files, argv);
    if r.Err? then None else Some(World(argv, r.value, false, restored))
  }

  function Next(reader: Reader, w: World, step: Step): Option<World> {
    match step
    case OpenDatabase =>
      if RESTORE_KEY !in w.config || w.claimed then Some(w)
      else
        var backup := if w.config[RESTORE_KEY].Text? then w.config[RESTORE_KEY].s else "";
        Some(w.(claimed := true, restored := w.restored + [backup]))
    case ReloadConfig(files) =>
      var r := Reloaded(reader, files, w.argv);
      Some(if r.Ok? then w.(config := r.value) else w)
    case Restart(files) => Boot(reader, files, RESTORE_FLAG.Stripped(w.argv), w.restored)
  }

  function Exec(reader: Reader, files: Config, argv: seq<string>, run: seq<Step>): Option<World> {
    if run == [] then Boot(reader, files, argv, [])
    else
      var w := Exec(reader, files, argv, run[..|run| - 1]);
      if w.None? then None else Next(reader, w.value, run[|run| - 1])
  }

  /** The configuration asks for the backup the command line names, or for none. */
  ghost predicate Consistent(w: World) {
    RESTORE_KEY in w.config ==> Asked(w.argv).Some? && w.config[RESTORE_KEY] == Text(Asked(w.argv).value)
  }

  /** Once restored, neither this process nor any later one can restore again. */
  ghost predicate Inv(argv: seq<string>, w: World) {
    && Consistent(w)
    && (w.restored == [] || (Asked(argv).Some? && w.restored == [Asked(argv).value]))
    && (w.restored != [] ==> w.claimed || RESTORE_KEY !in w.config)
    && (w.claimed ==> Asked(w.argv).Some?)
    && (Asked(w.argv).Some? ==> w.argv == argv && (w.restored != [] ==> w.claimed))
  }

  lemma ReloadHasNoRestore(reader: Reader, files: Config, argv: seq<string>)
    requires Reloaded(reader, files, argv).Ok?
    ensures RESTORE_KEY !in Reloaded(reader, files, argv).value
  {
    OnlyTheFlagSetsRestore(files, ParseArgs(reader, argv).(restoreBackup := None), reader.parse);
  }

  /** A start asks for exactly the backup the command line names. */
  lemma StartRestoresIfAsked(reader: Reader, files: Config, argv: seq<string>)
    requires Started(reader, files, argv).Ok?
    ensures var c := Started(reader, files, argv).value;
            && (RESTORE_KEY in c <==> Asked(argv).Some?)
            && (RESTORE_KEY in c ==> c[RESTORE_KEY] == Text(Asked(argv).value))
  {
    ReloadHasNoRestore(reader, files, argv);
  }

  lemma StrippedAsksNothing(argv: seq<string>)
    ensures Asked(RESTORE_FLAG.Stripped(argv)).None?
  {
    RestoreFlagValid();
    StripExact(RESTORE_FLAG, argv);
    OthersNoValue(RESTORE_FLAG.Tokens(argv), LATEST);
  }

  lemma NextInv(reader: Reader, argv: seq<string>, w: World, step: Step)
    requires Inv(argv, w) && Next(reader, w, step).Some?
    ensures Inv(argv, Next(reader, w, step).value)
  {
    match step
    case OpenDatabase =>
    case ReloadConfig(files) =>
      if Reloaded(reader, files, w.argv).Ok? {
        ReloadHasNoRestore(reader, files, w.argv);
      }
    case Restart(files) =>
      StrippedAsksNothing(w.argv);
      StartRestoresIfAsked(reader, files, RESTORE_FLAG.Stripped(w.argv));
  }

  lemma {:induction false} ExecInv(reader: Reader, files: Config, argv: seq<string>, run: seq<Step>)
    requires Exec(reader, files, argv, run).Some?
    ensures Inv(argv, Exec(reader, files, argv, run).value)
  {
    if run == [] {
      StartRestoresIfAsked(reader, files, argv);
    } else {
      ExecInv(reader, files, argv, run[..|run| - 1]);
      NextInv(reader, argv, Exec(reader, files, argv, run[..|run| - 1]).value, run[|run| - 1]);
    }
  }

  /**
   Over any run of reopened databases, config reloads and restarts, whatever
   the config files hold along the way, nothing is restored but the backup the
   first command line names, and that at most once.
   */
  lemma {:induction false} RestoredAtMostOnce(reader: Reader, files: Config, argv: seq<string>, run: seq<Step>)
    requires Exec(reader, files, argv, run).Some?
    ensures var restored := Exec(reader, files, argv, run).value.restored;
            restored == [] || (Asked(argv).Some? && restored == [Asked(argv).value])
  {
    ExecInv(reader, files, argv, run);
  }

  /** If the database is opened first of all, that backup is restored, and once. */
  lemma {:induction false} RestoredOnFirstOpen(reader: Reader, files: Config, argv: seq<string>, run: seq<Step>)
    requires Exec(reader, files, argv, run).Some? && run != [] && run[0] == OpenDatabase
    ensures Exec(reader, files, argv, run).value.restored == if Asked(argv).Some? then [Asked(argv).value] else []
    decreases |run|
  {
    ExecInv(reader, files, argv, run);
    var init := run[..|run| - 1];
    if init == [] {
      StartRestoresIfAsked(reader, files, argv);
    } else {
      assert init[0] == run[0];
      RestoredOnFirstOpen(reader, files, argv, init);
    }
  }

  /** After an accepted reload, and after a restart, nothing asks for a restore any more. */
  lemma NothingAskedAgain(reader: Reader, files: Config, argv: seq<string>, run: seq<Step>, now: Config, step: Step)
    requires Exec(reader, files, argv, run).Some? && (step == ReloadConfig(now) || step == Restart(now))
    requires Exec(reader, files, argv, run + [step]).Some?
    requires step.ReloadConfig? ==> Reloaded(reader, now, Exec(reader, files, argv, run).value.argv).Ok?
    ensures RESTORE_KEY !in Exec(reader, files, argv, run + [step]).value.config
    ensures step.Restart? ==> Asked(Exec(reader, files, argv, run + [step]).value.argv).None?
  {
    assert (run + [step])[..|run|] == run;
    var w := Exec(reader, files, argv, run).value;
    if step.ReloadConfig? {
      ReloadHasNoRestore(reader, now, w.argv);
    } else {
      StrippedAsksNothing(w.argv);
      StartRestoresIfAsked(reader, now, RESTORE_FLAG.Stripped(w.argv));
    }
  }
}
