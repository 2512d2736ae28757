/**
 Percent-encoding and the query codec of common/url/url.go: escape and unescape for
 the path, path-segment, userinfo, query and fragment parts (section 2.1 of RFC
 3986), Values.Encode and parseQuery.
 */
module UrlCodec {
  import opened Bytes

  type Text = seq<Byte>

  type Values = map<Text, seq<Text>>

  datatype Mode = Path | PathSegment | UserPassword | QueryComponent | Fragment

  const PERCENT: Byte := 37   // %
  const PLUS: Byte := 43      // +
  const SPACE: Byte := 32
  const AMP: Byte := 38       // &
  const SEMI: Byte := 59      // ;
  const EQ: Byte := 61        // =

  predicate IsHex(c: Byte) {
    48 <= c <= 57 || 97 <= c <= 102 || 65 <= c <= 70
  }

  function Unhex(c: Byte): (d: Byte)
    ensures d < 16
  {
    if 48 <= c <= 57 then c - 48
    else if 97 <= c <= 102 then c - 97 + 10
    else if 65 <= c <= 70 then c - 65 + 10
    else 0
  }

  function UpperHex(d: Byte): (c: Byte)
    requires d < 16
    ensures IsHex(c) && Unhex(c) == d
    ensures c != AMP && c != SEMI && c != EQ && c != PLUS && c != PERCENT && c != SPACE
  {
    if d < 10 then 48 + d else 65 + (d - 10)
  }

  predicate Alphanumeric(c: Byte) {
    97 <= c <= 122 || 65 <= c <= 90 || 48 <= c <= 57
  }

  /** $ & + , / : ; = ? @ */
  predicate Reserved(c: Byte) {
    c == 36 || c == 38 || c == 43 || c == 44 || c == 47 || c == 58 || c == 59 || c == 61 || c == 63 || c == 64
  }

  predicate ShouldEscape(c: Byte, mode: Mode) {
    if Alphanumeric(c) then false
    else if c == 45 || c == 95 || c == 46 || c == 126 then false   // - _ . ~
    else if Reserved(c) then
      match mode
      case Path => c == 63                               // ?
      case PathSegment => c == 47 || c == 59 || c == 44 || c == 63      // / ; , ?
      case UserPassword => c == 64 || c == 47 || c == 63 || c == 58     // @ / ? :
      case QueryComponent => true
      case Fragment => false
    else if mode == Fragment && (c == 33 || c == 40 || c == 41 || c == 42) then false   // ! ( ) *
    else true
  }

  /** The characters besides letters and digits that each part leaves as they are. */
  ghost function LeftBare(mode: Mode): string {
    match mode
    case Path => "-_.~$&+,/:;=@"
    case PathSegment => "-_.~$&+:=@"
    case UserPassword => "-_.~$&+,;="
    case QueryComponent => "-_.~"
    case Fragment => "-_.~$&+,/:;=?@!()*"
  }

  lemma {:induction false} EscapedExactly(c: Byte, mode: Mode)
    ensures !ShouldEscape(c, mode) <==>
            'a' <= c as char <= 'z' || 'A' <= c as char <= 'Z' || '0' <= c as char <= '9' || c as char in LeftBare(mode)
  {
  }

  /** An escape spells both halves of the byte in upper-case hexadecimal. */
  lemma {:induction false} HexDigits(d: Byte)
    requires d < 16
    ensures UpperHex(d) as char == "0123456789ABCDEF"[d]
  {
  }

  /** Hexadecimal digits are read in either case. */
  lemma {:induction false} HexByCharacter(c: Byte)
    ensures IsHex(c) <==> c as char in "0123456789abcdefABCDEF"
    ensures IsHex(c) ==> c as char == "0123456789abcdef"[Unhex(c)] || c as char == "0123456789ABCDEF"[Unhex(c)]
  {
  }

  // --- escaping one string -----------------------------------------------------------

  function EscapeByte(c: Byte, mode: Mode): Text {
    if c == SPACE && mode == QueryComponent then [PLUS]
    else if ShouldEscape(c, mode) then [PERCENT, UpperHex(c / 16), UpperHex(c % 16)]
    else [c]
  }

  function Escaped(s: Text, mode: Mode): Text {
    if s == [] then [] else Escaped(s[..|s| - 1], mode) + EscapeByte(s[|s| - 1], mode)
  }

  /** How many bytes of `s` become three. */
  function HexCount(s: Text, mode: Mode): nat {
    if s == [] then 0
    else
      var c := s[|s| - 1];
      HexCount(s[..|s| - 1], mode)
      + if ShouldEscape(c, mode) && !(c == SPACE && mode == QueryComponent) then 1 else 0
  }

  /** The escaped length is the precomputed one. */
  lemma {:induction false} EscapedLength(s: Text, mode: Mode)
    ensures |Escaped(s, mode)| == |s| + 2 * HexCount(s, mode)
  {
    if s != [] {
      EscapedLength(s[..|s| - 1], mode);
    }
  }

  /** What cannot be decoded; a bad escape is reported with at most three of its bytes. */
  datatype Error = BadEscape(text: Text) | SemicolonSeparator

  function Offending(s: Text): Text {
    if |s| > 3 then s[..3] else s
  }

  function Unescaped(s: Text, mode: Mode): Result<Text, Error> {
    if s == [] then Ok([])
    else if s[0] == PERCENT then
      if |s| <= 2 || !IsHex(s[1]) || !IsHex(s[2]) then Err(BadEscape(Offending(s)))
      else Cons(Unhex(s[1]) * 16 + Unhex(s[2]), Unescaped(s[3..], mode))
    else
      Cons(if s[0] == PLUS && mode == QueryComponent then SPACE else s[0], Unescaped(s[1..], mode))
  }

  function Cons(c: Byte, r: Result<Text, Error>): Result<Text, Error> {
    match r
    case Err(e) => Err(e)
    case Ok(t) => Ok([c] + t)
  }

  lemma {:induction false} UnescapePlain(c: Byte, rest: Text, mode: Mode)
    requires c != PERCENT
    ensures Unescaped([c] + rest, mode) == Cons(if c == PLUS && mode == QueryComponent then SPACE else c, Unescaped(rest, mode))
  {
    assert ([c] + rest)[1..] == rest;
  }

  lemma {:induction false} UnescapeHex(c: Byte, rest: Text, mode: Mode)
    ensures Unescaped([PERCENT, UpperHex(c / 16), UpperHex(c % 16)] + rest, mode) == Cons(c, Unescaped(rest, mode))
  {
    var s := [PERCENT, UpperHex(c / 16), UpperHex(c % 16)] + rest;
    assert s[1] == UpperHex(c / 16) && s[2] == UpperHex(c % 16) && s[3..] == rest;
  }

  /** Unescaping an escaped byte in front of anything gives the byte back. */
  lemma {:induction false} UnescapeFirst(c: Byte, rest: Text, mode: Mode)
    ensures Unescaped(EscapeByte(c, mode) + rest, mode) == Cons(c, Unescaped(rest, mode))
  {
    if c == SPACE && mode == QueryComponent {
      UnescapePlain(PLUS, rest, mode);
    } else if ShouldEscape(c, mode) {
      UnescapeHex(c, rest, mode);
    } else {
      UnescapePlain(c, rest, mode);
    }
  }

  /** Put `s` in front of a decoded text. */
  function Prepend(s: Text, r: Result<Text, Error>): Result<Text, Error> {
    match r
    case Err(e) => Err(e)
    case Ok(t) => Ok(s + t)
  }

  lemma {:induction false} PrependSnoc(front: Text, c: Byte, r: Result<Text, Error>)
    ensures Prepend(front, Cons(c, r)) == Prepend(front + [c], r)
  {
    if r.Ok? {
      assert front + ([c] + r.value) == front + [c] + r.value;
    }
  }

  lemma {:induction false} PrependNothing(r: Result<Text, Error>)
    ensures Prepend([], r) == r
  {
    if r.Ok? {
      assert [] + r.value == r.value;
    }
  }

  lemma {:induction false} UnescapeAfter(s: Text, rest: Text, mode: Mode)
    ensures Unescaped(Escaped(s, mode) + rest, mode) == Prepend(s, Unescaped(rest, mode))
  {
    if s == [] {
      assert Escaped(s, mode) + rest == rest;
      PrependNothing(Unescaped(rest, mode));
    } else {
      var front, c := s[..|s| - 1], s[|s| - 1];
      var e := EscapeByte(c, mode);
      UnescapeAfter(front, e + rest, mode);
      UnescapeFirst(c, rest, mode);
      PrependSnoc(front, c, Unescaped(rest, mode));
      Regrouped(Escaped(front, mode), e, rest);
      assert front + [c] == s;
    }
  }

  /** Unescape undoes escape: every string, every mode. */
  lemma {:induction false} UnescapeUndoesEscape(s: Text, mode: Mode)
    ensures Unescaped(Escaped(s, mode), mode) == Ok(s)
  {
    UnescapeAfter(s, [], mode);
    assert Escaped(s, mode) + [] == Escaped(s, mode);
    assert s + [] == s;
  }

  /** In query mode an escaped string never contains a separator. */
  lemma {:induction false} EscapedHasNoSeparator(s: Text)
    ensures AMP !in Escaped(s, QueryComponent) && SEMI !in Escaped(s, QueryComponent) && EQ !in Escaped(s, QueryComponent)
  {
    if s != [] {
      EscapedHasNoSeparator(s[..|s| - 1]);
    }
  }

  // --- the loops ---------------------------------------------------------------------

  /** How many bytes of `s` become a plus sign. */
  function SpaceCount(s: Text, mode: Mode): nat {
    if s == [] then 0
    else SpaceCount(s[..|s| - 1], mode) + if s[|s| - 1] == SPACE && mode == QueryComponent then 1 else 0
  }

  lemma {:induction false} NothingToEscape(s: Text, mode: Mode)
    ensures SpaceCount(s, mode) == 0 && HexCount(s, mode) == 0 ==> Escaped(s, mode) == s
    ensures SpaceCount(s, mode) > 0 ==> mode == QueryComponent
  {
    if s != [] {
      NothingToEscape(s[..|s| - 1], mode);
      assert s == s[..|s| - 1] + [s[|s| - 1]];
    }
  }

  /** Escape into a buffer whose size is computed up front and filled exactly. */
  method Escape(s: Text, mode: Mode) returns (t: Text)
    ensures t == Escaped(s, mode)
  {
    var spaceCount, hexCount := 0, 0;
    for i := 0 to |s|
      invariant hexCount == HexCount(s[..i], mode) && spaceCount == SpaceCount(s[..i], mode)
    {
      assert s[..i + 1][..i] == s[..i];
      var c := s[i];
      if ShouldEscape(c, mode) {
        if c == SPACE && mode == QueryComponent {
          spaceCount := spaceCount + 1;
        } else {
          hexCount := hexCount + 1;
        }
      }
    }
    assert s[..|s|] == s;
    NothingToEscape(s, mode);
    if spaceCount == 0 && hexCount == 0 {
      return s;
    }
    EscapedLength(s, mode);
    var buf := new Byte[|s| + 2 * hexCount];
    if hexCount == 0 {
      t := SpacesToPlus(s, buf);
    } else {
      t := FillEscaped(s, mode, buf);
    }
  }

  /** The path taken when only spaces need replacing. */
  method SpacesToPlus(s: Text, t: array<Byte>) returns (out: Text)
    requires t.Length == |s| && HexCount(s, QueryComponent) == 0
    modifies t
    ensures out == Escaped(s, QueryComponent)
  {
    forall i | 0 <= i < |s| { t[i] := s[i]; }
    for i := 0 to |s|
      invariant forall k :: i <= k < |s| ==> t[k] == s[k]
      invariant t[..i] == Escaped(s[..i], QueryComponent)
    {
      assert s[..i + 1][..i] == s[..i];
      HexCountPrefix(s, i + 1, QueryComponent);
      if s[i] == SPACE {
        t[i] := PLUS;
      }
      assert t[..i + 1] == t[..i] + [t[i]];
    }
    assert s[..|s|] == s && t[..] == t[..|s|];
    out := t[..];
  }

  lemma {:induction false} HexCountPrefix(s: Text, i: nat, mode: Mode)
    requires i <= |s|
    ensures HexCount(s[..i], mode) <= HexCount(s, mode)
    decreases |s|
  {
    if i < |s| {
      assert s[..|s| - 1][..i] == s[..i];
      HexCountPrefix(s[..|s| - 1], i, mode);
    } else {
      assert s[..i] == s;
    }
  }

  lemma {:induction false} EscapedPrefix(s: Text, i: nat, mode: Mode)
    requires i <= |s|
    ensures Escaped(s[..i], mode) <= Escaped(s, mode)
    decreases |s|
  {
    if i < |s| {
      assert s[..|s| - 1][..i] == s[..i];
      EscapedPrefix(s[..|s| - 1], i, mode);
    } else {
      assert s[..i] == s;
    }
  }

  lemma {:induction false} EscapedStep(s: Text, i: nat, mode: Mode)
    requires i < |s|
    ensures Escaped(s[..i + 1], mode) == Escaped(s[..i], mode) + EscapeByte(s[i], mode)
    ensures |Escaped(s[..i], mode)| + |EscapeByte(s[i], mode)| <= |Escaped(s, mode)|
  {
    assert s[..i + 1][..i] == s[..i];
    EscapedPrefix(s, i + 1, mode);
  }

  method FillEscaped(s: Text, mode: Mode, t: array<Byte>) returns (out: Text)
    requires t.Length == |Escaped(s, mode)|
    modifies t
    ensures out == Escaped(s, mode)
  {
    var j := 0;
    for i := 0 to |s|
      invariant j == |Escaped(s[..i], mode)| <= t.Length
      invariant t[..j] == Escaped(s[..i], mode)
    {
      var c := s[i];
      EscapedStep(s, i, mode);
      if c == SPACE && mode == QueryComponent {
        j := Put(t, j, [PLUS]);
      } else if ShouldEscape(c, mode) {
        j := Put(t, j, [PERCENT, UpperHex(c / 16), UpperHex(c % 16)]);
      } else {
        j := Put(t, j, [c]);
      }
    }
    assert s[..|s|] == s && t[..] == t[..j];
    out := t[..];
  }

  /** Check first, then decode; a string with nothing to decode is returned as it is. */
  method Unescape(s: Text, mode: Mode) returns (r: Result<Text, Error>)
    ensures r == Unescaped(s, mode)
  {
    var n, hasPlus, i := 0, false, 0;
    assert s[0..] == s;
    while i < |s|
      invariant 0 <= i <= |s|
      invariant SameFate(Unescaped(s, mode), Unescaped(s[i..], mode))
      invariant n == 0 && !hasPlus ==> Plain(s[..i], mode)
      invariant mode != QueryComponent ==> !hasPlus
      decreases |s| - i
    {
      assert s[i..][1..] == s[i + 1..] && s[i..][0] == s[i];
      assert s[..i + 1] == s[..i] + [s[i]];
      if s[i] == PERCENT {
        n := n + 1;
        if i + 2 >= |s| || !IsHex(s[i + 1]) || !IsHex(s[i + 2]) {
          assert Unescaped(s[i..], mode) == Err(BadEscape(Offending(s[i..])));
          return Err(BadEscape(Offending(s[i..])));
        }
        assert s[i..][3..] == s[i + 3..];
        i := i + 3;
      } else if s[i] == PLUS {
        hasPlus := mode == QueryComponent;
        i := i + 1;
      } else {
        i := i + 1;
      }
    }
    if n == 0 && !hasPlus {
      assert s[..i] == s;
      PlainIsUnchanged(s, mode);
      return Ok(s);
    }
    var t := Decode(s, mode);
    r := Ok(t);
  }

  /** Nothing in the string needs decoding. */
  predicate Plain(s: Text, mode: Mode) {
    PERCENT !in s && (mode == QueryComponent ==> PLUS !in s)
  }

  lemma {:induction false} PlainIsUnchanged(s: Text, mode: Mode)
    requires Plain(s, mode)
    ensures Unescaped(s, mode) == Ok(s)
  {
    if s != [] {
      PlainIsUnchanged(s[1..], mode);
      assert s == [s[0]] + s[1..];
    }
  }

  /** Both decode, or both fail with the same error. */
  predicate SameFate(a: Result<Text, Error>, b: Result<Text, Error>) {
    a.Ok? == b.Ok? && (a.Err? ==> a.error == b.error)
  }

  lemma {:induction false} DecodeStep(s: Text, i: nat, mode: Mode, t: Text)
    requires i < |s| && Unescaped(s[i..], mode).Ok?
    ensures s[i] == PERCENT ==>
              && i + 3 <= |s| && Unescaped(s[i + 3..], mode).Ok?
              && t + Unescaped(s[i..], mode).value
                 == t + [Unhex(s[i + 1]) * 16 + Unhex(s[i + 2])] + Unescaped(s[i + 3..], mode).value
    ensures s[i] != PERCENT ==>
              && Unescaped(s[i + 1..], mode).Ok?
              && t + Unescaped(s[i..], mode).value
                 == t + [if s[i] == PLUS && mode == QueryComponent then SPACE else s[i]] + Unescaped(s[i + 1..], mode).value
  {
    var rest := s[i..];
    assert rest[0] == s[i] && rest[1..] == s[i + 1..];
    if s[i] == PERCENT {
      assert rest[3..] == s[i + 3..];
    }
  }

  method Decode(s: Text, mode: Mode) returns (t: Text)
    requires Unescaped(s, mode).Ok?
    ensures Unescaped(s, mode) == Ok(t)
  {
    t := [];
    var i := 0;
    assert s[0..] == s;
    while i < |s|
      invariant 0 <= i <= |s|
      invariant Unescaped(s[i..], mode).Ok?
      invariant Unescaped(s, mode).value == t + Unescaped(s[i..], mode).value
      decreases |s| - i
    {
      DecodeStep(s, i, mode, t);
      if s[i] == PERCENT {
        t := t + [Unhex(s[i + 1]) * 16 + Unhex(s[i + 2])];
        i := i + 3;
      } else if s[i] == PLUS {
        t := t + [if mode == QueryComponent then SPACE else PLUS];
        i := i + 1;
      } else {
        t := t + [s[i]];
        i := i + 1;
      }
    }
    assert t + [] == t;
  }

  // --- the query codec ---------------------------------------------------------------

  type Pair = (Text, Text)

  function EncodePair(p: Pair): Text {
    Escaped(p.0, QueryComponent) + [EQ] + Escaped(p.1, QueryComponent)
  }

  /** The pairs, separated by ampersands. */
  function Join(pairs: seq<Pair>): Text {
    if pairs == [] then []
    else if |pairs| == 1 then EncodePair(pairs[0])
    else EncodePair(pairs[0]) + [AMP] + Join(pairs[1..])
  }

  function PairsOf(key: Text, values: seq<Text>): seq<Pair> {
    if values == [] then [] else [(key, values[0])] + PairsOf(key, values[1..])
  }

  /** All pairs of the map, key by key in the given order. */
  function AllPairs(v: Values, keys: seq<Text>): seq<Pair>
    requires forall k :: k in keys ==> k in v
  {
    if keys == [] then [] else PairsOf(keys[0], v[keys[0]]) + AllPairs(v, keys[1..])
  }

  /** Position of the first `c`, or the length. */
  function IndexOf(s: Text, c: Byte): (i: nat)
    ensures i <= |s| && c !in s[..i] && (i < |s| ==> s[i] == c)
  {
    if s == [] || s[0] == c then 0 else 1 + IndexOf(s[1..], c)
  }

  /** strings.Cut */
  function Cut(s: Text, c: Byte): (r: (Text, Text))
    ensures |r.1| <= |s| && (s != [] ==> |r.1| < |s|)
  {
    var i := IndexOf(s, c);
    (s[..i], if i < |s| then s[i + 1..] else [])
  }

  function Add(m: Values, k: Text, w: Text): Values {
    m[k := (if k in m then m[k] else []) + [w]]
  }

  /** One `&`-separated setting: the map and the error afterwards. */
  function ParseSetting(m: Values, err: Option<Error>, setting: Text): (Values, Option<Error>) {
    if SEMI in setting then (m, Some(SemicolonSeparator))
    else if setting == [] then (m, err)
    else
      var (rawKey, rawValue) := Cut(setting, EQ);
      match Unescaped(rawKey, QueryComponent)
      case Err(e) => (m, if err.None? then Some(e) else err)
      case Ok(key) =>
        match Unescaped(rawValue, QueryComponent)
        case Err(e) => (m, if err.None? then Some(e) else err)
        case Ok(value) => (Add(m, key, value), err)
  }

  function Parsed(m: Values, err: Option<Error>, query: Text): (Values, Option<Error>)
    decreases |query|
  {
    if query == [] then (m, err)
    else
      var (setting, rest) := Cut(query, AMP);
      var (m', err') := ParseSetting(m, err, setting);
      Parsed(m', err', rest)
  }

  /** A setting that parses: no semicolon, and both of its halves decode. */
  ghost predicate GoodSetting(setting: Text) {
    && SEMI !in setting
    && Unescaped(Cut(setting, EQ).0, QueryComponent).Ok? && Unescaped(Cut(setting, EQ).1, QueryComponent).Ok?
  }

  ghost predicate AllGood(query: Text)
    decreases |query|
  {
    query == [] || (GoodSetting(Cut(query, AMP).0) && AllGood(Cut(query, AMP).1))
  }

  lemma {:induction false} CutParts(s: Text, c: Byte, x: Byte)
    ensures x in s <==> x in Cut(s, c).0 || x in Cut(s, c).1 || (x == c && IndexOf(s, c) < |s|)
  {
    var i := IndexOf(s, c);
    assert s == s[..i] + s[i..];
    if i < |s| {
      assert s[i..] == [c] + s[i + 1..];
    }
  }

  /**
   Which error a query ends with: the semicolon error if there is a semicolon anywhere, else
   the one there was before.
   */
  lemma {:induction false} ErrorKept(m: Values, err: Option<Error>, query: Text)
    ensures SEMI in query ==> Parsed(m, err, query).1 == Some(SemicolonSeparator)
    ensures SEMI !in query && err.Some? ==> Parsed(m, err, query).1 == err
    decreases |query|
  {
    if query != [] {
      var (setting, rest) := Cut(query, AMP);
      var (m', err') := ParseSetting(m, err, setting);
      CutParts(query, AMP, SEMI);
      ErrorKept(m', err', rest);
    }
  }

  /** A query parses without an error if and only if every one of its settings does. */
  lemma {:induction false} NoErrorExactly(m: Values, query: Text)
    ensures Parsed(m, None, query).1.None? <==> AllGood(query)
    decreases |query|
  {
    if query != [] {
      var (setting, rest) := Cut(query, AMP);
      var (m', err') := ParseSetting(m, None, setting);
      if err'.None? {
        NoErrorExactly(m', rest);
      } else {
        ErrorKept(m', err', rest);
      }
    }
  }

  /** Empty settings, as between two ampersands, are skipped. */
  lemma {:induction false} EmptySettingSkipped(m: Values, err: Option<Error>, query: Text)
    ensures Parsed(m, err, [AMP] + query) == Parsed(m, err, query)
  {
    assert ([AMP] + query)[1..] == query && ([AMP] + query)[..0] == [];
    assert Cut([AMP] + query, AMP) == ([], query);
  }

  /** A bad escape is reported with its first three bytes, or as many as there are. */
  lemma {:induction false} BadEscapeReported(s: Text, mode: Mode)
    requires s != [] && s[0] == PERCENT && (|s| < 3 || !IsHex(s[1]) || !IsHex(s[2]))
    ensures Unescaped(s, mode) == Err(BadEscape(s[..if |s| < 3 then |s| else 3]))
  {
    assert s[..|s|] == s;
  }

  function AddAll(m: Values, pairs: seq<Pair>): Values
    decreases |pairs|
  {
    if pairs == [] then m else AddAll(Add(m, pairs[0].0, pairs[0].1), pairs[1..])
  }

  lemma {:induction false} FirstSeparator(a: Text, c: Byte, b: Text)
    requires c !in a
    ensures IndexOf(a + [c] + b, c) == |a|
  {
    if a != [] {
      assert (a + [c] + b)[1..] == a[1..] + [c] + b;
      FirstSeparator(a[1..], c, b);
    }
  }

  lemma {:induction false} CutAtSeparator(a: Text, c: Byte, b: Text)
    requires c !in a
    ensures Cut(a + [c] + b, c) == (a, b)
  {
    FirstSeparator(a, c, b);
    var s := a + [c] + b;
    assert s[..|a|] == a && s[|a| + 1..] == b;
  }

  lemma {:induction false} CutNothing(a: Text, c: Byte)
    requires c !in a
    ensures Cut(a, c) == (a, [])
  {
    assert a[..|a|] == a;
  }

  lemma {:induction false} ParseEncodedPair(m: Values, p: Pair)
    ensures ParseSetting(m, None, EncodePair(p)) == (Add(m, p.0, p.1), None)
    ensures AMP !in EncodePair(p) && EncodePair(p) != []
  {
    EscapedHasNoSeparator(p.0);
    EscapedHasNoSeparator(p.1);
    CutAtSeparator(Escaped(p.0, QueryComponent), EQ, Escaped(p.1, QueryComponent));
    UnescapeUndoesEscape(p.0, QueryComponent);
    UnescapeUndoesEscape(p.1, QueryComponent);
  }

  lemma {:induction false} ParseJoined(m: Values, pairs: seq<Pair>)
    ensures Parsed(m, None, Join(pairs)) == (AddAll(m, pairs), None)
    decreases |pairs|
  {
    if pairs != [] {
      var first, rest := EncodePair(pairs[0]), pairs[1..];
      var m' := Add(m, pairs[0].0, pairs[0].1);
      ParseEncodedPair(m, pairs[0]);
      if |pairs| == 1 {
        CutNothing(first, AMP);
        assert rest == [];
      } else {
        CutAtSeparator(first, AMP, Join(rest));
        ParseJoined(m', rest);
      }
    }
  }

  lemma {:induction false} AddAllAppend(m: Values, a: seq<Pair>, b: seq<Pair>)
    ensures AddAll(m, a + b) == AddAll(AddAll(m, a), b)
    decreases |a|
  {
    if a == [] {
      assert a + b == b;
    } else {
      assert (a + b)[1..] == a[1..] + b;
      AddAllAppend(Add(m, a[0].0, a[0].1), a[1..], b);
    }
  }

  function Stored(m: Values, key: Text): seq<Text> {
    if key in m then m[key] else []
  }

  /** Adding a list under one key, value by value, appends exactly the list. */
  lemma {:induction false} AddPairsOf(m: Values, key: Text, values: seq<Text>)
    requires values != []
    ensures AddAll(m, PairsOf(key, values)) == m[key := Stored(m, key) + values]
    decreases |values|
  {
    var w, rest := values[0], values[1..];
    var m1 := Add(m, key, w);
    var pairs := PairsOf(key, values);
    assert pairs[0] == (key, w) && pairs[1..] == PairsOf(key, rest);
    if rest == [] {
      assert values == [w];
      assert AddAll(m1, []) == m1;
    } else {
      AddPairsOf(m1, key, rest);
      assert Stored(m1, key) + rest == Stored(m, key) + ([w] + rest);
      assert values == [w] + rest;
    }
  }

  predicate Distinct(keys: seq<Text>) {
    forall i, j :: 0 <= i < j < |keys| ==> keys[i] != keys[j]
  }

  /** `keys` lists the keys of `v`. */
  ghost predicate Lists(keys: seq<Text>, v: Values) {
    Distinct(keys) && forall k :: k in keys <==> k in v
  }

  /** The map without the keys that list no value: a query string has no way to write those. */
  function WithoutEmpty(v: Values): Values {
    map k | k in v && v[k] != [] :: v[k]
  }

  /** `after` holds what `before` holds, and `v` on those of the given keys that list a value. */
  ghost predicate Extends(before: Values, v: Values, keys: seq<Text>, after: Values) {
    && (forall k :: k in keys ==> k in v)
    && (forall k :: k in after <==> k in before || (k in keys && v[k] != []))
    && (forall k :: k in keys && v[k] != [] ==> k in after && after[k] == v[k])
    && (forall k :: k in before && k !in keys ==> after[k] == before[k])
  }

  lemma {:induction false} ExtendFirst(m: Values, v: Values, keys: seq<Text>, after: Values)
    requires keys != [] && Distinct(keys) && keys[0] in v && keys[0] !in m
    requires Extends(if v[keys[0]] == [] then m else m[keys[0] := v[keys[0]]], v, keys[1..], after)
    ensures Extends(m, v, keys, after)
  {
    var key, rest := keys[0], keys[1..];
    assert key !in rest;
    assert forall k :: k in keys <==> k == key || k in rest;
  }

  lemma {:induction false} AddEverything(m: Values, v: Values, keys: seq<Text>)
    requires Distinct(keys)
    requires forall k :: k in keys ==> k in v && k !in m
    ensures Extends(m, v, keys, AddAll(m, AllPairs(v, keys)))
    decreases |keys|
  {
    if keys != [] {
      var key, rest := keys[0], keys[1..];
      AddAllAppend(m, PairsOf(key, v[key]), AllPairs(v, rest));
      assert key !in rest;
      if v[key] != [] {
        AddPairsOf(m, key, v[key]);
        assert Stored(m, key) + v[key] == v[key];
        AddEverything(m[key := v[key]], v, rest);
      } else {
        AddEverything(m, v, rest);
      }
      ExtendFirst(m, v, keys, AddAll(m, AllPairs(v, keys)));
    }
  }

  /** Parsing what was encoded, in whatever order the keys were visited, gives the map back. */
  lemma {:induction false} ParseUndoesEncode(v: Values, keys: seq<Text>)
    requires Lists(keys, v)
    ensures Parsed(map[], None, Join(AllPairs(v, keys))) == (WithoutEmpty(v), None)
  {
    ParseJoined(map[], AllPairs(v, keys));
    AddEverything(map[], v, keys);
    assert AddAll(map[], AllPairs(v, keys)) == WithoutEmpty(v);
  }

  /** So the round trip is the identity exactly on maps in which every key lists a value. */
  lemma {:induction false} RoundTripExactly(v: Values, keys: seq<Text>)
    requires Lists(keys, v)
    ensures Parsed(map[], None, Join(AllPairs(v, keys))) == (v, None) <==> forall k :: k in v ==> v[k] != []
  {
    ParseUndoesEncode(v, keys);
    if forall k :: k in v ==> v[k] != [] {
      assert WithoutEmpty(v) == v;
    } else {
      var k :| k in v && v[k] == [];
      assert k !in WithoutEmpty(v);
    }
  }

  /** The smallest map that is lost: one key, `a`, with an empty list. */
  lemma {:induction false} EmptyListIsLost()
    ensures var v: Values := map[[97] := []]; Lists([[97]], v) && Parsed(map[], None, Join(AllPairs(v, [[97]]))) == (map[], None)
  {
    var v: Values := map[[97] := []];
    assert [[97]][0] == [97];
    assert Lists([[97]], v);
    ParseUndoesEncode(v, [[97]]);
    assert WithoutEmpty(v) == map[];
  }

  // --- Encode and ParseQuery as loops ------------------------------------------------------

  /** Bytewise string order. */
  predicate Less(a: Text, b: Text) {
    b != [] && (a == [] || a[0] < b[0] || (a[0] == b[0] && Less(a[1..], b[1..])))
  }

  lemma {:induction false} LessTrichotomy(a: Text, b: Text)
    ensures Less(a, b) || a == b || Less(b, a)
    ensures !(Less(a, b) && Less(b, a)) && !Less(a, a)
    decreases |a|
  {
    if a != [] && b != [] {
      LessTrichotomy(a[1..], b[1..]);
      LessTrichotomy(a[1..], a[1..]);
      assert a == [a[0]] + a[1..] && b == [b[0]] + b[1..];
    } else if a != [] {
      LessTrichotomy(a[1..], a[1..]);
    }
  }

  lemma {:induction false} LessTransitive(a: Text, b: Text, c: Text)
    requires Less(a, b) && Less(b, c)
    ensures Less(a, c)
    decreases |a|
  {
    if a != [] && a[0] == b[0] == c[0] {
      LessTransitive(a[1..], b[1..], c[1..]);
    }
  }

  predicate Sorted(keys: seq<Text>) {
    forall i, j :: 0 <= i < j < |keys| ==> Less(keys[i], keys[j])
  }

  method Smallest(keys: set<Text>) returns (least: Text)
    requires keys != {}
    ensures least in keys && forall k :: k in keys && k != least ==> Less(least, k)
  {
    least :| least in keys;
    var rest := keys - {least};
    while rest != {}
      invariant least in keys && rest <= keys
      invariant forall k :: k in keys && k !in rest && k != least ==> Less(least, k)
      decreases |rest|
    {
      var k :| k in rest;
      rest := rest - {k};
      LessTrichotomy(k, least);
      if Less(k, least) {
        forall x | x in keys && x !in rest && x != k ensures Less(k, x) {
          if x != least {
            LessTransitive(k, least, x);
          }
        }
        least := k;
      }
    }
  }

  /** The keys of the map, sorted. */
  method SortedKeys(v: Values) returns (keys: seq<Text>)
    ensures Sorted(keys) && Lists(keys, v)
  {
    keys := [];
    var rest := v.Keys;
    while rest != {}
      invariant Sorted(keys) && rest <= v.Keys
      invariant forall k :: k in keys <==> k in v && k !in rest
      invariant forall k, x :: k in keys && x in rest ==> Less(k, x)
      decreases |rest|
    {
      var least := Smallest(rest);
      ghost var before := keys;
      rest := rest - {least};
      keys := keys + [least];
      assert forall k :: k in keys <==> k in before || k == least;
    }
    SortedIsDistinct(keys);
  }

  lemma {:induction false} SortedIsDistinct(keys: seq<Text>)
    requires Sorted(keys)
    ensures Distinct(keys)
  {
    forall i, j | 0 <= i < j < |keys| ensures keys[i] != keys[j] {
      LessTrichotomy(keys[i], keys[j]);
    }
  }

  /** Encode the map, keys in sorted order; parsing the result gives the map back. */
  method Encode(v: Values) returns (out: Text)
    ensures exists keys :: Sorted(keys) && Lists(keys, v) && out == Join(AllPairs(v, keys))
    ensures Parsed(map[], None, out) == (WithoutEmpty(v), None)
  {
    var keys := SortedKeys(v);
    out := [];
    for i := 0 to |keys|
      invariant out == Join(AllPairs(v, keys[..i]))
    {
      AllPairsSnoc(v, keys, i);
      out := EncodeKey(out, keys[i], v[keys[i]], AllPairs(v, keys[..i]));
    }
    assert keys[..|keys|] == keys;
    ParseUndoesEncode(v, keys);
  }

  lemma {:induction false} AllPairsSnoc(v: Values, keys: seq<Text>, i: nat)
    requires i < |keys| && forall k :: k in keys ==> k in v
    ensures AllPairs(v, keys[..i + 1]) == AllPairs(v, keys[..i]) + PairsOf(keys[i], v[keys[i]])
    decreases |keys|
  {
    if i == 0 {
      assert keys[..1][1..] == [];
      assert AllPairs(v, keys[..1]) == PairsOf(keys[0], v[keys[0]]) + [];
    } else {
      assert keys[..i + 1][1..] == keys[1..][..i] && keys[..i][1..] == keys[1..][..i - 1];
      AllPairsSnoc(v, keys[1..], i - 1);
    }
  }

  /** Append every value of one key. */
  method EncodeKey(prefix: Text, key: Text, values: seq<Text>, ghost done: seq<Pair>) returns (out: Text)
    requires prefix == Join(done)
    ensures out == Join(done + PairsOf(key, values))
  {
    out := prefix;
    var keyEscaped := Escape(key, QueryComponent);
    assert done + PairsOf(key, values[..0]) == done;
    for j := 0 to |values|
      invariant out == Join(done + PairsOf(key, values[..j]))
    {
      var value := Escape(values[j], QueryComponent);
      ghost var pairs := done + PairsOf(key, values[..j]);
      PairsOfSnoc(key, values, j);
      assert done + PairsOf(key, values[..j + 1]) == pairs + [(key, values[j])];
      JoinSnoc(pairs, (key, values[j]));
      JoinIsEmpty(pairs);
      if out != [] {
        out := out + [AMP];
      }
      out := out + (keyEscaped + [EQ] + value);
    }
    assert values[..|values|] == values;
  }

  lemma {:induction false} PairsOfSnoc(key: Text, values: seq<Text>, j: nat)
    requires j < |values|
    ensures PairsOf(key, values[..j + 1]) == PairsOf(key, values[..j]) + [(key, values[j])]
    decreases |values|
  {
    if j == 0 {
      assert values[..1][1..] == [];
      assert PairsOf(key, values[..1]) == [(key, values[0])] + [];
    } else {
      assert values[..j + 1][1..] == values[1..][..j] && values[..j][1..] == values[1..][..j - 1];
      PairsOfSnoc(key, values[1..], j - 1);
    }
  }

  lemma {:induction false} JoinIsEmpty(pairs: seq<Pair>)
    ensures Join(pairs) == [] <==> pairs == []
  {
    if pairs != [] {
      assert |EncodePair(pairs[0])| > 0;
    }
  }

  lemma {:induction false} JoinSnoc(pairs: seq<Pair>, p: Pair)
    ensures Join(pairs + [p]) == (if pairs == [] then [] else Join(pairs) + [AMP]) + EncodePair(p)
    decreases |pairs|
  {
    if pairs == [] {
      assert pairs + [p] == [p];
      assert [] + EncodePair(p) == EncodePair(p);
    } else {
      var first, rest := EncodePair(pairs[0]), pairs[1..];
      assert (pairs + [p])[0] == pairs[0] && (pairs + [p])[1..] == rest + [p];
      JoinSnoc(rest, p);
      if rest == [] {
        assert [] + EncodePair(p) == EncodePair(p);
      } else {
        assert first + [AMP] + (Join(rest) + [AMP] + EncodePair(p)) == first + [AMP] + Join(rest) + [AMP] + EncodePair(p);
      }
    }
  }

  method ParseQuery(query: Text) returns (m: Values, err: Option<Error>)
    ensures (m, err) == Parsed(map[], None, query)
  {
    m, err := map[], None;
    var rest := query;
    while rest != []
      invariant Parsed(m, err, rest) == Parsed(map[], None, query)
      decreases |rest|
    {
      var (setting, after) := Cut(rest, AMP);
      rest := after;
      if SEMI in setting {
        err := Some(SemicolonSeparator);
        continue;
      }
      if setting == [] {
        continue;
      }
      var (rawKey, rawValue) := Cut(setting, EQ);
      var key := Unescape(rawKey, QueryComponent);
      if key.Err? {
        if err.None? {
          err := Some(key.error);
        }
        continue;
      }
      var value := Unescape(rawValue, QueryComponent);
      if value.Err? {
        if err.None? {
          err := Some(value.error);
        }
        continue;
      }
      m := Add(m, key.value, value.value);
    }
  }
}
