/**
 * The deterministic JSON printer behind every signature, and a parser that undoes it. Text is
 * a sequence of Unicode scalar values; the bytes signed are its UTF-8 encoding. Strings are
 * escaped as the Go encoder does with HTML escaping on, within section 7 of RFC 8259.
 */
module Json {
  import opened Results

  predicate NumberChar(c: char) {
    '0' <= c <= '9' || c == '-' || c == '+' || c == '.' || c == 'e' || c == 'E'
  }

  predicate IsNumber(t: string) { t != "" && forall i :: 0 <= i < |t| ==> NumberChar(t[i]) }

  type NumberToken = t: string | IsNumber(t) witness "0"

  /** `Unsupported` is a float with no JSON form (not a number, or infinite). */
  datatype Value = Str(s: string) | Number(token: NumberToken) | Unsupported | Object(pairs: seq<Pair>)

  datatype Pair = Pair(key: string, value: Value)

  datatype MarshalError = UnsupportedValue

  // ---- characters ---------------------------------------------------------------------

  const HEX := "0123456789abcdef"

  function HexDigit(n: nat): char
    requires n < 16
  {
    HEX[n]
  }

  function HexValue(c: char): Option<nat> {
    if '0' <= c <= '9' then Some((c - '0') as nat)
    else if 'a' <= c <= 'f' then Some((c - 'a') as nat + 10)
    else None
  }

  lemma HexRoundTrip(n: nat)
    requires n < 16
    ensures HexValue(HexDigit(n)) == Some(n)
  {
  }

  /** The characters the encoder spells out as a four-digit code. */
  predicate NeedsCode(c: char) {
    || (c as int < 0x20 && c as int !in {8, 9, 10, 12, 13})
    || c == '<' || c == '>' || c == '&'
    || c as int == 0x2028 || c as int == 0x2029
  }

  /** The one-letter escapes: the letter that follows the backslash. */
  function ShortEscape(c: char): Option<char> {
    if c == '"' || c == '\\' then Some(c)
    else if c as int == 8 then Some('b')
    else if c as int == 9 then Some('t')
    else if c as int == 10 then Some('n')
    else if c as int == 12 then Some('f')
    else if c as int == 13 then Some('r')
    else None
  }

  function CodeEscape(code: nat): string
    requires code < 0x10000
  {
    ['\\', 'u', HexDigit(code / 4096), HexDigit(code / 256 % 16), HexDigit(code / 16 % 16), HexDigit(code % 16)]
  }

  function Escape(c: char): string {
    match ShortEscape(c)
    case Some(letter) => ['\\', letter]
    case None => if NeedsCode(c) then CodeEscape(c as nat) else [c]
  }

  function EscapeAll(t: string): string {
    if t == "" then "" else Escape(t[0]) + EscapeAll(t[1..])
  }

  function Quote(t: string): string { "\"" + EscapeAll(t) + "\"" }

  // ---- the printer --------------------------------------------------------------------

  predicate Marshalable(v: Value) {
    match v
    case Unsupported => false
    case Object(pairs) => AllMarshalable(pairs)
    case _ => true
  }

  predicate AllMarshalable(pairs: seq<Pair>) {
    pairs == [] || (Marshalable(pairs[0].value) && AllMarshalable(pairs[1..]))
  }

  function Print(v: Value): string
    requires Marshalable(v)
  {
    match v
    case Str(s) => Quote(s)
    case Number(t) => t
    case Object(pairs) => Marshal(pairs)
  }

  function Marshal(pairs: seq<Pair>): string
    requires AllMarshalable(pairs)
    decreases pairs, 1
  {
    "{" + Members(pairs)
  }

  /** What follows the opening brace. */
  function Members(pairs: seq<Pair>): string
    requires AllMarshalable(pairs)
    decreases pairs, 0
  {
    if pairs == [] then "}"
    else Quote(pairs[0].key) + ":" + Print(pairs[0].value)
         + (if |pairs| == 1 then "" else ",") + Members(pairs[1..])
  }

  lemma AllMarshalableEach(pairs: seq<Pair>)
    ensures AllMarshalable(pairs) <==> forall i :: 0 <= i < |pairs| ==> Marshalable(pairs[i].value)
  {
    if pairs != [] {
      AllMarshalableEach(pairs[1..]);
      assert forall i :: 1 <= i < |pairs| ==> pairs[i] == pairs[1..][i - 1];
    }
  }

  /** What is still to be appended once the first `i` pairs are in the buffer. */
  function Remaining(pairs: seq<Pair>, i: nat): string
    requires i <= |pairs| && AllMarshalable(pairs[i..])
  {
    (if 0 < i < |pairs| then "," else "") + Members(pairs[i..])
  }

  lemma RemainingNext(pairs: seq<Pair>, i: nat)
    requires i < |pairs| && AllMarshalable(pairs[i..])
    ensures AllMarshalable(pairs[i + 1..])
    ensures Remaining(pairs, i)
         == (if i > 0 then "," else "") + Quote(pairs[i].key) + ":" + Print(pairs[i].value) + Remaining(pairs, i + 1)
  {
    hide Quote, Print;
    assert pairs[i..][1..] == pairs[i + 1..];
    var before, after := if i > 0 then "," else "", if i + 1 < |pairs| then "," else "";
    var key, value, more := Quote(pairs[i].key), Print(pairs[i].value), Members(pairs[i + 1..]);
    Associative(before, key, ":");
    Associative(before, key + ":", value);
    Associative(key + ":" + value, after, more);
    Associative(before, key + ":" + value, after + more);
  }

  method MarshalSortedKV(pairs: seq<Pair>) returns (r: Result<string, MarshalError>)
    ensures r == if AllMarshalable(pairs) then Ok(Marshal(pairs)) else Err(UnsupportedValue)
    decreases pairs
  {
    hide Quote, AllMarshalable, Members, Remaining;
    AllMarshalableEach(pairs);
    var buf := "{";
    if AllMarshalable(pairs) {
      RemainingStart(pairs);
    }
    for i := 0 to |pairs|
      invariant forall k :: 0 <= k < i ==> Marshalable(pairs[k].value)
      invariant AllMarshalable(pairs) ==>
        AllMarshalable(pairs[i..]) && buf + Remaining(pairs, i) == Marshal(pairs)
    {
      if AllMarshalable(pairs) {
        RemainingNext(pairs, i);
      }
      if i > 0 {
        buf := buf + ",";
      }
      buf := buf + Quote(pairs[i].key) + ":";
      match pairs[i].value {
        case Object(nested) =>
          var nestedBytes := MarshalSortedKV(nested);
          if nestedBytes.Err? {
            return Err(UnsupportedValue);
          }
          buf := buf + nestedBytes.value;
        case Unsupported =>
          return Err(UnsupportedValue);
        case Str(s) =>
          buf := buf + Quote(s);
        case Number(t) =>
          buf := buf + t;
      }
    }
    RemainingEnd(pairs);
    r := Ok(buf + "}");
  }

  lemma RemainingStart(pairs: seq<Pair>)
    requires AllMarshalable(pairs)
    ensures AllMarshalable(pairs[0..]) && "{" + Remaining(pairs, 0) == Marshal(pairs)
  {
    assert pairs[0..] == pairs;
  }

  lemma RemainingEnd(pairs: seq<Pair>)
    ensures AllMarshalable(pairs[|pairs|..]) && Remaining(pairs, |pairs|) == "}"
  {
    assert pairs[|pairs|..] == [];
  }

  // ---- the parser ---------------------------------------------------------------------

  function TakeCode(s: string): Option<(char, string)> {
    if |s| < 4 then None
    else
      match (HexValue(s[0]), HexValue(s[1]), HexValue(s[2]), HexValue(s[3]))
      case (Some(a), Some(b), Some(c), Some(d)) =>
        var code := 4096 * a + 256 * b + 16 * c + d;
        if code < 0xD800 || 0xE000 <= code < 0x10000 then Some((code as char, s[4..])) else None
      case _ => None
  }

  /** The next character of a string body and what follows it. */
  function TakeChar(s: string): (r: Option<(char, string)>)
    requires s != ""
    ensures r.Some? ==> |r.value.1| < |s|
  {
    if s[0] != '\\' then Some((s[0], s[1..]))
    else if |s| < 2 then None
    else if s[1] == '"' || s[1] == '\\' then Some((s[1], s[2..]))
    else if s[1] == 'b' then Some((8 as char, s[2..]))
    else if s[1] == 't' then Some((9 as char, s[2..]))
    else if s[1] == 'n' then Some((10 as char, s[2..]))
    else if s[1] == 'f' then Some((12 as char, s[2..]))
    else if s[1] == 'r' then Some((13 as char, s[2..]))
    else if s[1] == 'u' then TakeCode(s[2..])
    else None
  }

  /** A string body up to its closing quote. */
  function TakeString(s: string): (r: Option<(string, string)>)
    ensures r.Some? ==> |r.value.1| < |s|
    decreases |s|
  {
    if s == "" then None
    else if s[0] == '"' then Some(("", s[1..]))
    else
      match TakeChar(s)
      case None => None
      case Some((c, rest)) =>
        match TakeString(rest)
        case None => None
        case Some((t, after)) => Some(([c] + t, after))
  }

  function NumberLength(s: string): (n: nat)
    ensures n <= |s| && forall i :: 0 <= i < n ==> NumberChar(s[i])
  {
    if s == "" || !NumberChar(s[0]) then 0 else 1 + NumberLength(s[1..])
  }

  function ParseValue(s: string): (r: Option<(Value, string)>)
    ensures r.Some? ==> |r.value.1| < |s|
    decreases |s|, 0
  {
    if s == "" then None
    else if s[0] == '"' then
      match TakeString(s[1..])
      case None => None
      case Some((t, rest)) => Some((Str(t), rest))
    else if s[0] == '{' then
      match ParseMembers(s[1..])
      case None => None
      case Some((pairs, rest)) => Some((Object(pairs), rest))
    else
      var n := NumberLength(s);
      if n == 0 then None else Some((Number(s[..n]), s[n..]))
  }

  function ParseMembers(s: string): (r: Option<(seq<Pair>, string)>)
    ensures r.Some? ==> |r.value.1| < |s|
    decreases |s|, 0
  {
    if s == "" then None
    else if s[0] == '}' then Some(([], s[1..]))
    else if s[0] != '"' then None
    else
      match TakeString(s[1..])
      case None => None
      case Some((key, afterKey)) =>
        if afterKey == "" || afterKey[0] != ':' then None
        else
          match ParseValue(afterKey[1..])
          case None => None
          case Some((value, afterValue)) =>
            if afterValue == "" then None
            else if afterValue[0] == ',' then
              match ParseMembers(afterValue[1..])
              case None => None
              case Some((more, rest)) => if more == [] then None else Some(([Pair(key, value)] + more, rest))
            else if afterValue[0] == '}' then Some(([Pair(key, value)], afterValue[1..]))
            else None
  }

  /** A whole document: one object and nothing after it. */
  function Parse(s: string): Option<seq<Pair>> {
    match ParseValue(s)
    case Some((Object(pairs), rest)) => if rest == "" then Some(pairs) else None
    case _ => None
  }

  // ---- the parser undoes the printer --------------------------------------------------

  lemma CodeDigits(code: nat)
    requires code < 0x10000
    ensures 4096 * (code / 4096) + 256 * (code / 256 % 16) + 16 * (code / 16 % 16) + code % 16 == code
  {
    var high, middle := code / 256, code / 16;
    assert middle / 16 == high && high / 16 == code / 4096;
    assert code == 16 * middle + code % 16;
    assert middle == 16 * high + middle % 16;
    assert high == 16 * (high / 16) + high % 16;
  }

  lemma TakeCodeEscape(c: char, rest: string)
    requires c as int < 0x10000
    ensures TakeCode(CodeEscape(c as nat)[2..] + rest) == Some((c, rest))
  {
    hide HexValue, HexDigit;
    var code := c as nat;
    HexRoundTrip(code / 4096);
    HexRoundTrip(code / 256 % 16);
    HexRoundTrip(code / 16 % 16);
    HexRoundTrip(code % 16);
    CodeDigits(code);
    var s := CodeEscape(code)[2..] + rest;
    assert s[4..] == rest;
  }

  lemma TakeEscaped(c: char, rest: string)
    ensures Escape(c)[0] != '"'
    ensures TakeChar(Escape(c) + rest) == Some((c, rest))
  {
    hide CodeEscape, TakeCode;
    var s := Escape(c) + rest;
    if ShortEscape(c).Some? {
      assert s[2..] == rest;
    } else if NeedsCode(c) {
      CodeEscapeStarts(c as nat);
      TakeCodeEscape(c, rest);
      assert s[2..] == CodeEscape(c as nat)[2..] + rest;
    } else {
      assert s[1..] == rest;
    }
  }

  lemma CodeEscapeStarts(code: nat)
    requires code < 0x10000
    ensures |CodeEscape(code)| == 6 && CodeEscape(code)[..2] == "\\u"
  {
  }

  lemma {:induction false} TakeQuoted(t: string, rest: string)
    ensures TakeString(EscapeAll(t) + "\"" + rest) == Some((t, rest))
  {
    hide TakeChar, Escape;
    if t != "" {
      var after := EscapeAll(t[1..]) + "\"" + rest;
      TakeQuoted(t[1..], rest);
      TakeEscaped(t[0], after);
      Associative(Escape(t[0]), EscapeAll(t[1..]), "\"");
      Associative(Escape(t[0]), EscapeAll(t[1..]) + "\"", rest);
      assert [t[0]] + t[1..] == t;
    } else {
      assert (EscapeAll(t) + "\"" + rest)[1..] == rest;
    }
  }

  /** Text after a value starts with something that cannot continue a number. */
  predicate Stops(rest: string) { rest == "" || !NumberChar(rest[0]) }

  lemma {:induction false} NumberStops(t: string, rest: string)
    requires (forall i :: 0 <= i < |t| ==> NumberChar(t[i])) && Stops(rest)
    ensures NumberLength(t + rest) == |t|
  {
    if t != "" {
      NumberStops(t[1..], rest);
      assert (t + rest)[1..] == t[1..] + rest;
    } else {
      assert t + rest == rest;
    }
  }

  lemma ParseStr(t: string, rest: string)
    ensures ParseValue(Quote(t) + rest) == Some((Str(t), rest))
  {
    TakeQuoted(t, rest);
    assert (Quote(t) + rest)[1..] == EscapeAll(t) + "\"" + rest;
  }

  lemma ParseNumber(t: NumberToken, rest: string)
    requires Stops(rest)
    ensures ParseValue(t + rest) == Some((Number(t), rest))
  {
    NumberStops(t, rest);
    assert NumberChar(t[0]) && (t + rest)[0] == t[0];
    assert (t + rest)[..|t|] == t && (t + rest)[|t|..] == rest;
  }

  lemma ParseObject(pairs: seq<Pair>, body: string, rest: string)
    requires ParseMembers(body + rest) == Some((pairs, rest))
    ensures ParseValue("{" + body + rest) == Some((Object(pairs), rest))
  {
    hide ParseMembers, TakeString, NumberLength;
    assert ("{" + body + rest)[1..] == body + rest;
  }

  lemma {:induction false} ParsePrinted(v: Value, rest: string)
    requires Marshalable(v) && Stops(rest)
    ensures ParseValue(Print(v) + rest) == Some((v, rest))
    decreases v
  {
    match v
    case Str(t) =>
      ParseStr(t, rest);
    case Number(t) =>
      ParseNumber(t, rest);
    case Object(pairs) =>
      hide Members, ParseMembers, ParseValue;
      ParseMarshalled(pairs, rest);
      ParseObject(pairs, Members(pairs), rest);
  }

  /** One member, given that the value and the rest of the object parse. */
  lemma ParseMember(key: string, value: Value, printed: string, more: seq<Pair>, tail: string, rest: string)
    requires ParseValue(printed + tail) == Some((value, tail))
    requires (tail == "}" + rest && more == []) ||
      (tail != "" && tail[0] == ',' && more != [] && ParseMembers(tail[1..]) == Some((more, rest)))
    ensures ParseMembers(Quote(key) + ":" + printed + tail) == Some(([Pair(key, value)] + more, rest))
  {
    hide ParseValue, EscapeAll, TakeString;
    var s, afterKey := Quote(key) + ":" + printed + tail, ":" + printed + tail;
    TakeQuoted(key, afterKey);
    assert s[1..] == EscapeAll(key) + "\"" + afterKey;
    assert afterKey[1..] == printed + tail;
    if more == [] {
      assert tail[1..] == rest;
      assert [Pair(key, value)] + more == [Pair(key, value)];
    }
  }

  lemma ParseEmpty(rest: string)
    ensures Members([]) == "}" && ParseMembers("}" + rest) == Some(([], rest))
  {
    assert ("}" + rest)[1..] == rest;
  }

  /** Everything after the first value. */
  function Tail(more: seq<Pair>, rest: string): string
    requires AllMarshalable(more)
  {
    (if more == [] then "" else ",") + Members(more) + rest
  }

  lemma MembersFirst(pairs: seq<Pair>, rest: string)
    requires AllMarshalable(pairs) && pairs != []
    ensures Members(pairs) + rest
         == Quote(pairs[0].key) + ":" + Print(pairs[0].value) + Tail(pairs[1..], rest)
  {
    hide Quote, Print;
    var first, sep := Quote(pairs[0].key) + ":" + Print(pairs[0].value), if |pairs| == 1 then "" else ",";
    var more := Members(pairs[1..]);
    Associative(first, sep, more);
    Associative(first, sep + more, rest);
  }

  lemma Associative(a: string, b: string, c: string)
    ensures (a + b) + c == a + (b + c)
  {
  }

  lemma TailStops(more: seq<Pair>, rest: string)
    requires AllMarshalable(more)
    ensures Stops(Tail(more, rest))
    ensures more == [] ==> Tail(more, rest) == "}" + rest
    ensures more != [] ==> Tail(more, rest) == "," + (Members(more) + rest)
  {
  }

  lemma {:induction false} ParseMarshalled(pairs: seq<Pair>, rest: string)
    requires AllMarshalable(pairs)
    ensures ParseMembers(Members(pairs) + rest) == Some((pairs, rest))
    decreases pairs
  {
    hide Quote, ParseMembers, Print, Members, Tail, Stops;
    if pairs == [] {
      ParseEmpty(rest);
    } else {
      var key, value, more := pairs[0].key, pairs[0].value, pairs[1..];
      var tail := Tail(more, rest);
      ParseMarshalled(more, rest);
      TailStops(more, rest);
      ParsePrinted(value, tail);
      ParseMember(key, value, Print(value), more, tail, rest);
      MembersFirst(pairs, rest);
      assert [Pair(key, value)] + more == pairs;
    }
  }

  /** Parsing what was printed gives the list back, whatever its keys, strings and nesting. */
  lemma ParseMarshal(pairs: seq<Pair>)
    requires AllMarshalable(pairs)
    ensures Parse(Marshal(pairs)) == Some(pairs)
  {
    ParsePrinted(Object(pairs), "");
    assert Print(Object(pairs)) + "" == Marshal(pairs);
  }

  /** The bytes determine the list. */
  lemma MarshalInjective(a: seq<Pair>, b: seq<Pair>)
    requires AllMarshalable(a) && AllMarshalable(b) && Marshal(a) == Marshal(b)
    ensures a == b
  {
    ParseMarshal(a);
    ParseMarshal(b);
  }
}
