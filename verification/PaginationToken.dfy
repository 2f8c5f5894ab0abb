/**
 The text form of a hierarchy token: the short room ids already shown, the
 limit, the depth and the filter, as one string a client hands back.
 */
module PaginationToken {
  import opened Options

  const U64_LIMIT: nat := 0x1_0000_0000_0000_0000

  /** Larger numbers have no exact value in JSON. */
  const UINT_LIMIT: nat := 0x20_0000_0000_0000

  datatype Token = Token(shortRoomIds: seq<nat>, limit: nat, maxDepth: nat, suggestedOnly: bool) {
    ghost predicate Valid() {
      && (forall id <- shortRoomIds :: id < U64_LIMIT)
      && limit < UINT_LIMIT
      && maxDepth < UINT_LIMIT
    }
  }

  // Pieces of text

  function Split(s: string, c: char): (parts: seq<string>)
    ensures parts != []
  {
    if s == "" then [""]
    else
      var rest := Split(s[1..], c);
      if s[0] == c then [""] + rest else [[s[0]] + rest[0]] + rest[1..]
  }

  function Join(parts: seq<string>, c: char): string {
    if parts == [] then "" else if |parts| == 1 then parts[0] else parts[0] + ([c] + Join(parts[1..], c))
  }

  lemma {:induction false} SplitWhole(p: string, c: char)
    requires c !in p
    ensures Split(p, c) == [p]
  {
    if p != "" {
      SplitWhole(p[1..], c);
      assert [p[0]] + p[1..] == p;
    }
  }

  lemma {:induction false} SplitFirst(p: string, c: char, rest: string)
    requires c !in p
    ensures Split(p + ([c] + rest), c) == [p] + Split(rest, c)
  {
    var s := p + ([c] + rest);
    if p == "" {
      assert s[1..] == rest;
    } else {
      assert s[0] == p[0] && s[1..] == p[1..] + ([c] + rest);
      SplitFirst(p[1..], c, rest);
      assert [p[0]] + p[1..] == p;
    }
  }

  lemma {:induction false} SplitJoin(parts: seq<string>, c: char)
    requires parts != [] && forall p <- parts :: c !in p
    ensures Split(Join(parts, c), c) == parts
  {
    assert parts[0] in parts;
    if |parts| == 1 {
      SplitWhole(parts[0], c);
    } else {
      SplitJoin(parts[1..], c);
      SplitFirst(parts[0], c, Join(parts[1..], c));
      assert [parts[0]] + parts[1..] == parts;
    }
  }

  /** Joining brings in no character but the separator. */
  lemma {:induction false} JoinFree(parts: seq<string>, c: char, d: char)
    requires d != c && forall p <- parts :: d !in p
    ensures d !in Join(parts, c)
  {
    if parts != [] {
      assert parts[0] in parts;
      JoinFree(parts[1..], c, d);
    }
  }

  // Numbers

  predicate IsDigit(c: char) {
    '0' <= c <= '9'
  }

  function Digit(d: nat): (c: char)
    requires d < 10
    ensures IsDigit(c) && c as int == '0' as int + d
  {
    ('0' as int + d) as char
  }

  function Show(n: nat): (s: string)
    ensures s != "" && forall c <- s :: IsDigit(c)
  {
    (if n < 10 then "" else Show(n / 10)) + [Digit(n % 10)]
  }

  /** Reads digits onto `acc`; anything else is an error. */
  function Digits(s: string, acc: nat): Option<nat> {
    if s == "" then Some(acc)
    else if !IsDigit(s[0]) then None
    else Digits(s[1..], 10 * acc + (s[0] as int - '0' as int))
  }

  /** Parses a number below `bound`; one leading plus sign is allowed. */
  function ParseNumber(s: string, bound: nat): (r: Option<nat>)
    ensures r.Some? ==> r.value < bound
  {
    var digits := if s != "" && s[0] == '+' then s[1..] else s;
    var n := Digits(digits, 0);
    if digits == "" || n.None? || n.value >= bound then None else n
  }

  lemma {:induction false} DigitsSnoc(s: string, acc: nat, d: nat)
    requires d < 10 && Digits(s, acc).Some?
    ensures Digits(s + [Digit(d)], acc) == Some(10 * Digits(s, acc).value + d)
  {
    if s == "" {
      assert s + [Digit(d)] == [Digit(d)];
      assert [Digit(d)][1..] == "";
    } else {
      assert (s + [Digit(d)])[1..] == s[1..] + [Digit(d)];
      DigitsSnoc(s[1..], 10 * acc + (s[0] as int - '0' as int), d);
    }
  }

  lemma {:induction false} DigitsShow(n: nat)
    ensures Digits(Show(n), 0) == Some(n)
  {
    if n >= 10 {
      DigitsShow(n / 10);
    }
    DigitsSnoc(if n < 10 then "" else Show(n / 10), 0, n % 10);
  }

  lemma NumberRoundTrip(n: nat, bound: nat)
    requires n < bound
    ensures ParseNumber(Show(n), bound) == Some(n)
  {
    DigitsShow(n);
    assert IsDigit(Show(n)[0]);
  }

  predicate AllDigits(s: string) {
    forall c <- s :: IsDigit(c)
  }

  lemma {:induction false} DigitsParse(s: string, acc: nat)
    ensures Digits(s, acc).Some? <==> AllDigits(s)
  {
    if s != "" {
      assert s == [s[0]] + s[1..];
      if IsDigit(s[0]) {
        DigitsParse(s[1..], 10 * acc + (s[0] as int - '0' as int));
      }
    }
  }

  /** Digits, with or without one plus sign in front, are a number if it is below the bound; nothing else is. */
  lemma NumberExact(s: string, bound: nat)
    ensures s != "" && AllDigits(s) ==>
              && Digits(s, 0).Some?
              && ParseNumber(s, bound) == (if Digits(s, 0).value < bound then Digits(s, 0) else None)
              && ParseNumber("+" + s, bound) == ParseNumber(s, bound)
    ensures ParseNumber(s, bound).Some? ==> s != "" && AllDigits(if s[0] == '+' then s[1..] else s) && s != "+"
  {
    DigitsParse(s, 0);
    assert ("+" + s)[1..] == s;
    assert s != "" && AllDigits(s) ==> IsDigit(s[0]);
    if s != "" {
      DigitsParse(s[1..], 0);
    }
  }

  // Lists of ids

  function ShowAll(ids: seq<nat>): (parts: seq<string>)
    ensures |parts| == |ids|
    ensures forall p <- parts, c <- p :: IsDigit(c)
  {
    if ids == [] then [] else [Show(ids[0])] + ShowAll(ids[1..])
  }

  /** Pieces that are no number are passed over. */
  function ParseAll(parts: seq<string>): (ids: seq<nat>)
    ensures forall id <- ids :: id < U64_LIMIT
  {
    if parts == [] then []
    else
      var n := ParseNumber(parts[0], U64_LIMIT);
      (if n.Some? then [n.value] else []) + ParseAll(parts[1..])
  }

  lemma {:induction false} ListRoundTrip(ids: seq<nat>)
    requires forall id <- ids :: id < U64_LIMIT
    ensures ParseAll(ShowAll(ids)) == ids
  {
    if ids != [] {
      assert ids[0] in ids && forall id <- ids[1..] :: id in ids;
      NumberRoundTrip(ids[0], U64_LIMIT);
      ListRoundTrip(ids[1..]);
    }
  }

  lemma ParseAllCons(part: string, parts: seq<string>)
    ensures ParseAll([part] + parts)
         == (if ParseNumber(part, U64_LIMIT).Some? then [ParseNumber(part, U64_LIMIT).value] else []) + ParseAll(parts)
  {
    assert ([part] + parts)[1..] == parts;
  }

  /** Pieces count one by one, and a piece that is no number costs only itself. */
  lemma {:induction false} ParseAllConcat(a: seq<string>, b: seq<string>)
    ensures ParseAll(a + b) == ParseAll(a) + ParseAll(b)
  {
    if a == [] {
      assert a + b == b;
    } else {
      var rest := a[1..] + b;
      assert a + b == [a[0]] + rest && a == [a[0]] + a[1..];
      ParseAllConcat(a[1..], b);
      ParseAllCons(a[0], rest);
      ParseAllCons(a[0], a[1..]);
    }
  }

  /** An empty list shows as an empty piece, which holds no number. */
  lemma IdsRoundTrip(ids: seq<nat>)
    requires forall id <- ids :: id < U64_LIMIT
    ensures ParseAll(Split(Join(ShowAll(ids), ','), ',')) == ids
  {
    if ids == [] {
      assert Split("", ',') == [""];
      assert ParseAll([""]) == [];
    } else {
      SplitJoin(ShowAll(ids), ',');
      ListRoundTrip(ids);
    }
  }

  // Tokens

  function Fields(t: Token): seq<string> {
    [Join(ShowAll(t.shortRoomIds), ','), Show(t.limit), Show(t.maxDepth), if t.suggestedOnly then "true" else "false"]
  }

  function Display(t: Token): string {
    Join(Fields(t), '_')
  }

  function ParseFields(fields: seq<string>): (t: Option<Token>)
    ensures t.Some? ==> t.value.Valid()
  {
    if |fields| != 4 then None
    else
      var limit, maxDepth := ParseNumber(fields[1], UINT_LIMIT), ParseNumber(fields[2], UINT_LIMIT);
      if limit.None? || maxDepth.None? || (fields[3] != "true" && fields[3] != "false") then None
      else Some(Token(ParseAll(Split(fields[0], ',')), limit.value, maxDepth.value, fields[3] == "true"))
  }

  function FromStr(value: string): Option<Token> {
    ParseFields(Split(value, '_'))
  }

  /** A token a client hands back unchanged is understood as the one it was given. */
  lemma TokenRoundTrip(t: Token)
    requires t.Valid()
    ensures FromStr(Display(t)) == Some(t)
  {
    JoinFree(ShowAll(t.shortRoomIds), ',', '_');
    SplitJoin(Fields(t), '_');
    IdsRoundTrip(t.shortRoomIds);
    NumberRoundTrip(t.limit, UINT_LIMIT);
    NumberRoundTrip(t.maxDepth, UINT_LIMIT);
  }

  /** Whatever a client sends, an accepted token reads the same once shown again. */
  lemma AcceptedRoundTrip(value: string)
    requires FromStr(value).Some?
    ensures FromStr(Display(FromStr(value).value)) == FromStr(value)
  {
    TokenRoundTrip(FromStr(value).value);
  }

  /** Text is a token exactly if it has four fields, of which two are numbers and the last is `true` or `false`. */
  lemma FromStrExact(fields: seq<string>)
    requires fields != [] && forall f <- fields :: '_' !in f
    ensures FromStr(Join(fields, '_')).Some? <==>
              && |fields| == 4
              && ParseNumber(fields[1], UINT_LIMIT).Some?
              && ParseNumber(fields[2], UINT_LIMIT).Some?
              && (fields[3] == "true" || fields[3] == "false")
  {
    SplitJoin(fields, '_');
  }

  /** The text of a token, written out. */
  lemma TokenText(t: Token, a: nat, b: nat)
    ensures Display(t) == Join(ShowAll(t.shortRoomIds), ',') + "_" + Show(t.limit) + "_" + Show(t.maxDepth) + "_"
                          + (if t.suggestedOnly then "true" else "false")
    ensures Join(ShowAll([a, b]), ',') == Show(a) + "," + Show(b)
  {
    var ids := Join(ShowAll(t.shortRoomIds), ',');
    FourFields(ids, Show(t.limit), Show(t.maxDepth), if t.suggestedOnly then "true" else "false");
    assert [a, b][1..] == [b] && [b][1..] == [];
    assert ShowAll([b]) == [Show(b)] && ShowAll([a, b]) == [Show(a), Show(b)];
    assert [Show(a), Show(b)][1..] == [Show(b)];
  }

  lemma FourFields(a: string, b: string, c: string, d: string)
    ensures Join([a, b, c, d], '_') == a + "_" + b + "_" + c + "_" + d
  {
    var fields := [a, b, c, d];
    assert fields[1..] == [b, c, d] && fields[1..][1..] == [c, d] && fields[1..][1..][1..] == [d];
    assert Join([c, d], '_') == c + ("_" + d);
    assert Join([b, c, d], '_') == b + ("_" + (c + ("_" + d)));
  }
}
