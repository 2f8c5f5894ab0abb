/**
 Command lines and one flag in them that takes an optional value. A restart
 executes the server again with that flag taken out.
 */
module CommandLine {
  import opened Options

  function BeforeEquals(arg: string): string {
    if arg == "" || arg[0] == '=' then "" else [arg[0]] + BeforeEquals(arg[1..])
  }

  function AfterEquals(arg: string): string {
    if arg == "" then "" else if arg[0] == '=' then arg[1..] else AfterEquals(arg[1..])
  }

  predicate LooksLikeFlag(arg: string) {
    arg != "" && arg[0] == '-'
  }

  /** A command line as it is understood: the flag, with or without its value, and everything else. */
  datatype Token = Bare | Detached(value: string) | Inline(arg: string) | Other(arg: string)

  function Others(ts: seq<Token>): seq<Token> {
    if ts == [] then [] else if ts[0].Other? then [ts[0]] + Others(ts[1..]) else Others(ts[1..])
  }

  datatype Flag = Flag(name: string) {
    ghost predicate Valid() {
      LooksLikeFlag(name) && BeforeEquals(name) == name
    }

    /** Any spelling of the flag: bare, or with its value behind `=`. */
    predicate Matches(arg: string) {
      BeforeEquals(arg) == name
    }

    /** The bare flag takes the next argument, unless that is itself a flag. */
    predicate TakesValue(args: seq<string>) {
      |args| > 1 && args[0] == name && !LooksLikeFlag(args[1])
    }

    function Tokens(args: seq<string>): seq<Token> {
      if args == [] then []
      else if TakesValue(args) then [Detached(args[1])] + Tokens(args[2..])
      else if args[0] == name then [Bare] + Tokens(args[1..])
      else if Matches(args[0]) then [Inline(args[0])] + Tokens(args[1..])
      else [Other(args[0])] + Tokens(args[1..])
    }

    function Spelling(t: Token): seq<string> {
      match t
      case Bare => [name]
      case Detached(value) => [name, value]
      case Inline(arg) => [arg]
      case Other(arg) => [arg]
    }

    function Render(ts: seq<Token>): seq<string> {
      if ts == [] then [] else Spelling(ts[0]) + Render(ts[1..])
    }

    /** The command line without the flag and its values. */
    function Stripped(args: seq<string>): seq<string> {
      Render(Others(Tokens(args)))
    }

    /** What the scan keeps of `args` when the argument before them was, or was not, the bare flag. */
    function ScanFrom(args: seq<string>, bare: bool): seq<string> {
      if args == [] then []
      else if (bare && !LooksLikeFlag(args[0])) || Matches(args[0]) then ScanFrom(args[1..], args[0] == name)
      else [args[0]] + ScanFrom(args[1..], args[0] == name)
    }
  }

  lemma OthersCons(t: Token, ts: seq<Token>)
    ensures Others([t] + ts) == if t.Other? then [t] + Others(ts) else Others(ts)
  {
    assert ([t] + ts)[1..] == ts;
  }

  lemma RenderCons(flag: Flag, t: Token, ts: seq<Token>)
    ensures flag.Render([t] + ts) == flag.Spelling(t) + flag.Render(ts)
  {
    assert ([t] + ts)[1..] == ts;
  }

  lemma StrippedValue(flag: Flag, args: seq<string>)
    requires flag.TakesValue(args)
    ensures flag.Stripped(args) == flag.Stripped(args[2..])
  {
    OthersCons(Detached(args[1]), flag.Tokens(args[2..]));
  }

  lemma StrippedCons(flag: Flag, args: seq<string>)
    requires flag.Valid() && args != [] && !flag.TakesValue(args)
    ensures flag.Stripped(args)
         == if flag.Matches(args[0]) then flag.Stripped(args[1..]) else [args[0]] + flag.Stripped(args[1..])
  {
    var rest := flag.Tokens(args[1..]);
    if flag.Matches(args[0]) {
      OthersCons(if args[0] == flag.name then Bare else Inline(args[0]), rest);
    } else {
      OthersCons(Other(args[0]), rest);
      RenderCons(flag, Other(args[0]), Others(rest));
    }
  }

  lemma ScanValue(flag: Flag, args: seq<string>)
    requires flag.Valid() && flag.TakesValue(args)
    ensures flag.ScanFrom(args, false) == flag.ScanFrom(args[2..], false)
  {
    var rest := args[1..];
    assert rest[0] == args[1] && rest[1..] == args[2..];
    assert flag.ScanFrom(args, false) == flag.ScanFrom(rest, true);
  }

  lemma ScanBare(flag: Flag, args: seq<string>)
    requires args == [] || LooksLikeFlag(args[0])
    ensures flag.ScanFrom(args, true) == flag.ScanFrom(args, false)
  {
  }

  lemma ScanCons(flag: Flag, args: seq<string>)
    requires flag.Valid() && args != [] && !flag.TakesValue(args)
    ensures flag.ScanFrom(args, false)
         == if flag.Matches(args[0]) then flag.ScanFrom(args[1..], false) else [args[0]] + flag.ScanFrom(args[1..], false)
  {
    if args[0] == flag.name {
      assert args[1..] != [] ==> args[1..][0] == args[1];
      ScanBare(flag, args[1..]);
    }
  }

  /** Carrying one flag along the list takes out exactly the flag's tokens. */
  lemma {:induction false} ScanIsStrip(flag: Flag, args: seq<string>)
    requires flag.Valid()
    ensures flag.ScanFrom(args, false) == flag.Stripped(args)
    decreases |args|
  {
    if args == [] {
    } else if flag.TakesValue(args) {
      ScanValue(flag, args);
      StrippedValue(flag, args);
      ScanIsStrip(flag, args[2..]);
    } else {
      ScanCons(flag, args);
      StrippedCons(flag, args);
      ScanIsStrip(flag, args[1..]);
    }
  }

  method StripFlag(flag: Flag, args: seq<string>) returns (kept: seq<string>)
    requires flag.Valid()
    ensures kept == flag.Stripped(args)
  {
    kept := [];
    var bare := false;
    assert args[0..] == args;
    for i := 0 to |args|
      invariant kept + flag.ScanFrom(args[i..], bare) == flag.ScanFrom(args, false)
    {
      assert args[i..][1..] == args[i + 1..] && args[i..][0] == args[i];
      var arg := args[i];
      var value := bare && !LooksLikeFlag(arg);
      bare := arg == flag.name;
      var matches := flag.Matches(arg);
      if !value && !matches {
        kept := kept + [arg];
      }
    }
    ScanIsStrip(flag, args);
  }

  /** Nothing is lost in reading a command line. */
  lemma {:induction false} RenderTokens(flag: Flag, args: seq<string>)
    ensures flag.Render(flag.Tokens(args)) == args
    decreases |args|
  {
    if args == [] {
    } else if flag.TakesValue(args) {
      RenderTokens(flag, args[2..]);
      RenderCons(flag, Detached(args[1]), flag.Tokens(args[2..]));
      assert [flag.name, args[1]] + args[2..] == args;
    } else {
      RenderTokens(flag, args[1..]);
      RenderCons(flag, flag.Tokens(args)[0], flag.Tokens(args[1..]));
      assert [args[0]] + args[1..] == args;
    }
  }

  /** Neither the flag nor anything it is spelled as. */
  ghost predicate Free(flag: Flag, ts: seq<Token>) {
    forall t <- ts :: t.Other? && !flag.Matches(t.arg)
  }

  lemma {:induction false} OthersFree(flag: Flag, args: seq<string>)
    ensures Free(flag, Others(flag.Tokens(args)))
    decreases |args|
  {
    if args == [] {
    } else if flag.TakesValue(args) {
      OthersFree(flag, args[2..]);
      OthersCons(Detached(args[1]), flag.Tokens(args[2..]));
    } else {
      OthersFree(flag, args[1..]);
      OthersCons(flag.Tokens(args)[0], flag.Tokens(args[1..]));
    }
  }

  lemma {:induction false} TokensOfFree(flag: Flag, ts: seq<Token>)
    requires flag.Valid() && Free(flag, ts)
    ensures flag.Tokens(flag.Render(ts)) == ts && Others(ts) == ts
    ensures forall arg <- flag.Render(ts) :: !flag.Matches(arg)
  {
    if ts != [] {
      TokensOfFree(flag, ts[1..]);
      assert ts[0] in ts;
      var args := flag.Render(ts);
      assert args[0] == ts[0].arg && args[1..] == flag.Render(ts[1..]);
    }
  }

  /**
   Stripping leaves no spelling of the flag, reads as the same command line
   with every use of the flag and its value gone, and is idempotent.
   */
  lemma StripExact(flag: Flag, args: seq<string>)
    requires flag.Valid()
    ensures forall arg <- flag.Stripped(args) :: !flag.Matches(arg)
    ensures flag.Tokens(flag.Stripped(args)) == Others(flag.Tokens(args))
    ensures flag.Stripped(flag.Stripped(args)) == flag.Stripped(args)
  {
    OthersFree(flag, args);
    TokensOfFree(flag, Others(flag.Tokens(args)));
  }

  // Any command line, use by use

  lemma {:induction false} SplitAtEquals(name: string, value: string)
    requires BeforeEquals(name) == name
    ensures BeforeEquals(name + "=" + value) == name && AfterEquals(name + "=" + value) == value
  {
    var arg := name + "=" + value;
    if name == "" {
      assert arg[1..] == value;
    } else {
      assert name[0] != '=' && BeforeEquals(name[1..]) == name[1..];
      assert arg[0] == name[0] && arg[1..] == name[1..] + "=" + value;
      SplitAtEquals(name[1..], value);
    }
  }

  lemma StrippedOther(flag: Flag, args: seq<string>, rest: seq<string>)
    requires flag.Valid() && args != [] && !flag.Matches(args[0]) && rest == args[1..]
    ensures flag.Stripped(args) == [args[0]] + flag.Stripped(rest)
  {
    StrippedCons(flag, args);
  }

  /** Arguments before the first use of the flag stay in front, as they are. */
  lemma {:induction false} StrippedBehind(flag: Flag, pre: seq<string>, post: seq<string>, args: seq<string>, kept: seq<string>)
    requires flag.Valid() && forall arg <- pre :: !flag.Matches(arg)
    requires args == pre + post && kept == flag.Stripped(args)
    ensures kept == pre + flag.Stripped(post)
    decreases |pre|
  {
    if pre == [] {
      assert args == post;
    } else {
      var args' := pre[1..] + post;
      assert pre[0] in pre && args[0] == pre[0] && args[1..] == args';
      StrippedBehind(flag, pre[1..], post, args', flag.Stripped(args'));
      StrippedOther(flag, args, args');
    }
  }

  /** The bare flag goes with the value behind it. */
  lemma StripDetached(flag: Flag, pre: seq<string>, value: string, post: seq<string>)
    requires flag.Valid() && (forall arg <- pre :: !flag.Matches(arg)) && !LooksLikeFlag(value)
    ensures flag.Stripped(pre + ([flag.name, value] + post)) == pre + flag.Stripped(post)
  {
    var args := [flag.name, value] + post;
    StrippedBehind(flag, pre, args, pre + args, flag.Stripped(pre + args));
    StrippedValue(flag, args);
    assert args[2..] == post;
  }

  /** It goes alone at the end of the line and in front of another flag, which stays. */
  lemma StripBare(flag: Flag, pre: seq<string>, post: seq<string>)
    requires flag.Valid() && (forall arg <- pre :: !flag.Matches(arg)) && (post == [] || LooksLikeFlag(post[0]))
    ensures flag.Stripped(pre + ([flag.name] + post)) == pre + flag.Stripped(post)
  {
    var args := [flag.name] + post;
    StrippedBehind(flag, pre, args, pre + args, flag.Stripped(pre + args));
    StrippedCons(flag, args);
    assert args[1..] == post;
  }

  /** With its value behind an equals sign it goes alone; what follows is not its value. */
  lemma StripInline(flag: Flag, pre: seq<string>, value: string, post: seq<string>)
    requires flag.Valid() && forall arg <- pre :: !flag.Matches(arg)
    ensures flag.Stripped(pre + ([flag.name + "=" + value] + post)) == pre + flag.Stripped(post)
  {
    var args := [flag.name + "=" + value] + post;
    SplitAtEquals(flag.name, value);
    StrippedBehind(flag, pre, args, pre + args, flag.Stripped(pre + args));
    assert |args[0]| > |flag.name|;
    StrippedCons(flag, args);
    assert args[1..] == post;
  }

  // The value of the first use

  /** `missing` stands for the value of a bare flag. */
  function FirstValue(ts: seq<Token>, missing: string): Option<string> {
    if ts == [] then None
    else
      match ts[0]
      case Bare => Some(missing)
      case Detached(value) => Some(value)
      case Inline(arg) => Some(AfterEquals(arg))
      case Other(_) => FirstValue(ts[1..], missing)
  }

  lemma {:induction false} OthersNoValue(ts: seq<Token>, missing: string)
    ensures FirstValue(Others(ts), missing).None?
  {
    if ts != [] {
      OthersNoValue(ts[1..], missing);
      assert ts == [ts[0]] + ts[1..];
      OthersCons(ts[0], ts[1..]);
      var rest := Others(ts[1..]);
      assert ts[0].Other? ==> ([ts[0]] + rest)[1..] == rest;
    }
  }

  lemma TokensOther(flag: Flag, args: seq<string>, missing: string)
    requires flag.Valid() && args != [] && !flag.Matches(args[0])
    ensures FirstValue(flag.Tokens(args), missing) == FirstValue(flag.Tokens(args[1..]), missing)
  {
    var rest := flag.Tokens(args[1..]);
    assert flag.Tokens(args) == [Other(args[0])] + rest;
    assert ([Other(args[0])] + rest)[1..] == rest;
  }

  lemma {:induction false} FirstValueBehind(flag: Flag, pre: seq<string>, post: seq<string>, missing: string)
    requires flag.Valid() && forall arg <- pre :: !flag.Matches(arg)
    ensures FirstValue(flag.Tokens(pre + post), missing) == FirstValue(flag.Tokens(post), missing)
  {
    if pre == [] {
      assert pre + post == post;
    } else {
      var args := pre + post;
      assert pre[0] in pre && args[0] == pre[0] && args[1..] == pre[1..] + post;
      FirstValueBehind(flag, pre[1..], post, missing);
      TokensOther(flag, args, missing);
    }
  }

  lemma FirstValueExact(flag: Flag, pre: seq<string>, value: string, post: seq<string>, missing: string)
    requires flag.Valid() && forall arg <- pre :: !flag.Matches(arg)
    ensures !LooksLikeFlag(value) ==>
              FirstValue(flag.Tokens(pre + ([flag.name, value] + post)), missing) == Some(value)
    ensures FirstValue(flag.Tokens(pre + ([flag.name + "=" + value] + post)), missing) == Some(value)
    ensures post == [] || LooksLikeFlag(post[0]) ==>
              FirstValue(flag.Tokens(pre + ([flag.name] + post)), missing) == Some(missing)
    ensures FirstValue(flag.Tokens(pre), missing) == None
  {
    FirstValueBehind(flag, pre, [flag.name, value] + post, missing);
    FirstValueBehind(flag, pre, [flag.name + "=" + value] + post, missing);
    FirstValueBehind(flag, pre, [flag.name] + post, missing);
    FirstValueBehind(flag, pre, [], missing);
    assert pre + [] == pre;
    SplitAtEquals(flag.name, value);
    assert |flag.name + "=" + value| > |flag.name|;
    var bare := [flag.name] + post;
    assert post != [] ==> bare[1] == post[0];
  }
}
