/** The text codecs of the web page (Interface.cpp): form encoding and the query
    parser, HTML escaping and JSON escaping, with the decoders that undo them. */
module WebText {
  import opened PointTypes
  import opened Text

  predicate IsByte(c: char) {
    c as int < 256
  }

  predicate IsBytes(s: string) {
    forall c :: c in s ==> IsByte(c)
  }

  /** Every character replaced by its escape. */
  function Expand(escape: char -> string, s: string): string {
    if s == "" then "" else escape(s[0]) + Expand(escape, s[1..])
  }

  // ------------------------------------------------------------- form encoding

  function HexDigit(d: nat, ten: char): char
    requires d < 16 && ten as int < 1000
  {
    if d < 10 then ('0' as int + d) as char else (ten as int + d - 10) as char
  }

  predicate IsUnreserved(c: char) {
    'A' <= c <= 'Z' || 'a' <= c <= 'z' || '0' <= c <= '9' || c == '-' || c == '_' || c == '.' || c == '~'
  }

  function UrlByte(c: char): string {
    if IsUnreserved(c) then [c]
    else if c == ' ' then "+"
    else ['%', HexDigit(c as int / 16 % 16, 'A'), HexDigit(c as int % 16, 'A')]
  }

  function UrlEncode(s: string): string {
    Expand(UrlByte, s)
  }

  /** The value of a hexadecimal digit, 16 for any other character. */
  function HexValue(c: char): nat {
    if '0' <= c <= '9' then c as int - '0' as int
    else if 'A' <= c <= 'F' then c as int - 'A' as int + 10
    else if 'a' <= c <= 'f' then c as int - 'a' as int + 10
    else 16
  }

  /** The byte strtol reads in base 16 from two characters: it skips a space, takes
      a sign, and stops at the first character that is no digit. */
  function HexPair(a: char, b: char): (c: char)
    ensures IsByte(c)
  {
    var x, y := HexValue(a), HexValue(b);
    if x < 16 then (if y < 16 then 16 * x + y else x) as char
    else if y < 16 && (IsSpace(a) || a == '+') then y as char
    else if y < 16 && a == '-' then ((256 - y) % 256) as char
    else 0 as char
  }

  function UrlDecode(s: string): string
    decreases |s|
  {
    if s == "" then ""
    else if s[0] == '%' && |s| > 2 then [HexPair(s[1], s[2])] + UrlDecode(s[3..])
    else [if s[0] == '+' then ' ' else s[0]] + UrlDecode(s[1..])
  }

  lemma HexValueOfDigit(d: nat, ten: char)
    requires d < 16 && (ten == 'A' || ten == 'a')
    ensures HexValue(HexDigit(d, ten)) == d && HexDigit(d, ten) as int >= 0x20
  {
  }

  /** Both cases of the hexadecimal digits are read. */
  lemma HexPairOfDigits(c: char, ten: char, tenLow: char)
    requires IsByte(c) && (ten == 'A' || ten == 'a') && (tenLow == 'A' || tenLow == 'a')
    ensures HexPair(HexDigit(c as int / 16 % 16, ten), HexDigit(c as int % 16, tenLow)) == c
  {
    var high, low := c as int / 16 % 16, c as int % 16;
    HexValueOfDigit(high, ten);
    HexValueOfDigit(low, tenLow);
    hide HexDigit, HexValue;
    assert 16 * high + low == c as int;
  }

  /** Escapes that are no two digits: a digit with something else behind it counts alone, a
      space or sign before a digit is skipped, minus counts down from 256, and anything
      else is the NUL byte. */
  lemma OddEscapes(a: char, b: char)
    ensures HexValue(a) < 16 && HexValue(b) == 16 ==> HexPair(a, b) as int == HexValue(a)
    ensures (a == ' ' || a == '+' || '\t' <= a <= '\r') && HexValue(b) < 16 ==> HexPair(a, b) as int == HexValue(b)
    ensures a == '-' && HexValue(b) < 16 ==> (HexPair(a, b) as int + HexValue(b)) % 256 == 0
    ensures HexValue(a) == 16 && HexValue(b) == 16 ==> HexPair(a, b) as int == 0
    ensures HexValue(a) == 16 && a != ' ' && a != '+' && a != '-' && !('\t' <= a <= '\r') ==> HexPair(a, b) as int == 0
  {
  }

  lemma UrlByteDecodes(c: char, rest: string)
    requires IsByte(c)
    ensures UrlDecode(UrlByte(c) + rest) == [c] + UrlDecode(rest)
  {
    hide HexPair, HexDigit;
    HexPairOfDigits(c, 'A', 'A');
    var e := UrlByte(c);
    var s := e + rest;
    assert s[0] == e[0] && s[|e|..] == rest;
  }

  /** Every byte string comes back from the form encoding, '%', '+', '&' and NUL included. */
  lemma {:induction false} UrlRoundTrip(s: string)
    requires IsBytes(s)
    ensures UrlDecode(UrlEncode(s)) == s
  {
    if s != "" {
      UrlByteDecodes(s[0], UrlEncode(s[1..]));
      UrlRoundTrip(s[1..]);
    }
  }

  /** An encoded value holds unreserved characters, '%' and '+' only. */
  lemma {:induction false} UrlEncodedIsPlain(s: string)
    ensures forall c :: c in UrlEncode(s) ==> IsUnreserved(c) || c == '%' || c == '+'
  {
    if s != "" {
      UrlEncodedIsPlain(s[1..]);
    }
  }

  /** Text of unreserved characters is sent as it is. */
  lemma {:induction false} UnreservedUnchanged(s: string)
    requires forall c :: c in s ==> IsUnreserved(c)
    ensures UrlEncode(s) == s
  {
    if s != "" {
      assert s[0] in s && forall c :: c in s[1..] ==> c in s;
      UnreservedUnchanged(s[1..]);
      assert s == [s[0]] + s[1..];
    }
  }

  predicate IsUpperHex(c: char) {
    '0' <= c <= '9' || 'A' <= c <= 'F'
  }

  /** Percent signs stand only before two upper-case hexadecimal digits, as section 2.1 of
      RFC 3986 asks. */
  lemma {:induction false} UrlEncodedEscapes(s: string)
    ensures var e := UrlEncode(s);
            forall i :: 0 <= i < |e| && e[i] == '%' ==> i + 2 < |e| && IsUpperHex(e[i + 1]) && IsUpperHex(e[i + 2])
  {
    if s != "" {
      var piece, rest := UrlByte(s[0]), UrlEncode(s[1..]);
      UrlEncodedEscapes(s[1..]);
      UrlByteShape(s[0]);
      hide UrlByte, IsUpperHex, IsUnreserved;
      var e := piece + rest;
      forall i | 0 <= i < |e| && e[i] == '%'
        ensures i + 2 < |e| && IsUpperHex(e[i + 1]) && IsUpperHex(e[i + 2])
      {
        if i >= |piece| {
          assert rest[i - |piece|] == '%';
        } else {
          assert piece[i] == '%';
        }
      }
    }
  }

  /** There is one plus sign for every space, and no other. */
  lemma {:induction false} UrlEncodedSpaces(s: string)
    ensures multiset(UrlEncode(s))['+'] == multiset(s)[' ']
  {
    if s != "" {
      UrlEncodedSpaces(s[1..]);
      UrlByteShape(s[0]);
      hide UrlByte;
      assert s == [s[0]] + s[1..];
      assert multiset(UrlByte(s[0]) + UrlEncode(s[1..])) == multiset(UrlByte(s[0])) + multiset(UrlEncode(s[1..]));
    }
  }

  lemma UrlByteShape(c: char)
    ensures var e := UrlByte(c);
            && (forall i :: 0 <= i < |e| && e[i] == '%' ==> i + 2 < |e| && IsUpperHex(e[i + 1]) && IsUpperHex(e[i + 2]))
            && multiset(e)['+'] == if c == ' ' then 1 else 0
  {
    var e := UrlByte(c);
    if |e| == 3 {
      assert IsUpperHex(e[1]) && IsUpperHex(e[2]);
      assert e == [e[0], e[1], e[2]];
    } else {
      assert e == [e[0]];
    }
  }

  // ------------------------------------------------------------- the query parser

  /** A query pair as it is sent, its value encoded somehow. */
  datatype SentPair = SentPair(key: string, text: string)

  datatype Pair = Pair(key: string, value: string)

  /** The value of the first token whose key this is, decoded; empty without one. */
  function Find(tokens: seq<string>, key: string): string {
    if tokens == [] then ""
    else if Item(tokens[0], '=') == key then UrlDecode(Rest(tokens[0], '='))
    else Find(tokens[1..], key)
  }

  function GetParam(path: string, key: string): string {
    Find(Items(Rest(path, '?'), '&'), key)
  }

  function PairText(p: SentPair): string {
    p.key + "=" + p.text
  }

  function QueryText(pairs: seq<SentPair>): string {
    if pairs == [] then ""
    else if |pairs| == 1 then PairText(pairs[0])
    else PairText(pairs[0]) + "&" + QueryText(pairs[1..])
  }

  function FirstDecoded(pairs: seq<SentPair>, key: string): string {
    if pairs == [] then "" else if pairs[0].key == key then UrlDecode(pairs[0].text) else FirstDecoded(pairs[1..], key)
  }

  predicate Sendable(p: SentPair) {
    '&' !in p.key && '=' !in p.key && '&' !in p.text
  }

  function PairTexts(pairs: seq<SentPair>): seq<string> {
    if pairs == [] then [] else [PairText(pairs[0])] + PairTexts(pairs[1..])
  }

  lemma PairTextSplits(p: SentPair)
    requires Sendable(p)
    ensures '&' !in PairText(p) && PairText(p) != ""
    ensures Item(PairText(p), '=') == p.key && Rest(PairText(p), '=') == p.text
  {
    var s := PairText(p);
    assert s[..|p.key|] == p.key && s[|p.key|] == '=' && s[|p.key| + 1..] == p.text;
    UntilIs(s, '=', |p.key|);
  }

  lemma {:induction false} QuerySplits(pairs: seq<SentPair>)
    requires forall p :: p in pairs ==> Sendable(p)
    ensures Items(QueryText(pairs), '&') == PairTexts(pairs)
  {
    if pairs != [] {
      PairTextSplits(pairs[0]);
      if |pairs| == 1 {
        ItemsLast(PairText(pairs[0]), '&');
      } else {
        ItemsStep(PairText(pairs[0]), '&', QueryText(pairs[1..]));
        QuerySplits(pairs[1..]);
      }
    }
  }

  lemma {:induction false} FindInPairs(pairs: seq<SentPair>, key: string)
    requires forall p :: p in pairs ==> Sendable(p)
    ensures Find(PairTexts(pairs), key) == FirstDecoded(pairs, key)
  {
    if pairs != [] {
      PairTextSplits(pairs[0]);
      FindInPairs(pairs[1..], key);
      hide PairText, UrlDecode;
      assert PairTexts(pairs)[1..] == PairTexts(pairs[1..]);
    }
  }

  /** Whatever encoded the values, the parser returns the decoding of the first pair
      with the key, and the empty string when there is none. */
  lemma QueryParses(prefix: string, pairs: seq<SentPair>, key: string)
    requires '?' !in prefix && forall p :: p in pairs ==> Sendable(p)
    ensures GetParam(prefix + "?" + QueryText(pairs), key) == FirstDecoded(pairs, key)
  {
    hide QueryText, Find, Items, Sendable;
    var path := prefix + "?" + QueryText(pairs);
    assert path[..|prefix|] == prefix && path[|prefix| + 1..] == QueryText(pairs);
    UntilIs(path, '?', |prefix|);
    QuerySplits(pairs);
    FindInPairs(pairs, key);
  }

  function Encoded(pairs: seq<Pair>): (r: seq<SentPair>)
    ensures |r| == |pairs|
    ensures forall i :: 0 <= i < |r| ==> r[i] == SentPair(pairs[i].key, UrlEncode(pairs[i].value))
  {
    if pairs == [] then []
    else [SentPair(pairs[0].key, UrlEncode(pairs[0].value))] + Encoded(pairs[1..])
  }

  function FirstValue(pairs: seq<Pair>, key: string): string {
    if pairs == [] then "" else if pairs[0].key == key then pairs[0].value else FirstValue(pairs[1..], key)
  }

  lemma EncodedIsSendable(value: string)
    requires IsBytes(value)
    ensures '&' !in UrlEncode(value) && UrlDecode(UrlEncode(value)) == value
  {
    UrlEncodedIsPlain(value);
    UrlRoundTrip(value);
  }

  lemma {:induction false} EncodedFirst(pairs: seq<Pair>, key: string)
    requires forall p :: p in pairs ==> IsBytes(p.value)
    ensures FirstDecoded(Encoded(pairs), key) == FirstValue(pairs, key)
  {
    if pairs != [] {
      EncodedIsSendable(pairs[0].value);
      EncodedFirst(pairs[1..], key);
      hide UrlEncode, UrlDecode;
      assert Encoded(pairs)[1..] == Encoded(pairs[1..]);
    }
  }

  /** The parser returns, for every key, exactly the value the query was built from:
      the first pair's when a key repeats, the empty string when there is none. */
  lemma QueryRoundTrip(prefix: string, pairs: seq<Pair>, key: string)
    requires '?' !in prefix
    requires forall p :: p in pairs ==> '&' !in p.key && '=' !in p.key && IsBytes(p.value)
    ensures GetParam(prefix + "?" + QueryText(Encoded(pairs)), key) == FirstValue(pairs, key)
  {
    hide QueryText, GetParam, UrlEncode, IsBytes, FirstDecoded, FirstValue;
    var sent := Encoded(pairs);
    forall i | 0 <= i < |sent|
      ensures Sendable(sent[i])
    {
      assert pairs[i] in pairs;
      EncodedIsSendable(pairs[i].value);
    }
    QueryParses(prefix, sent, key);
    EncodedFirst(pairs, key);
  }

  // ------------------------------------------------------------- HTML

  function HtmlByte(c: char): string {
    match c
    case '&' => "&amp;"
    case '<' => "&lt;"
    case '>' => "&gt;"
    case '\"' => "&quot;"
    case '\'' => "&#39;"
    case _ => [c]
  }

  function HtmlEscape(s: string): string {
    Expand(HtmlByte, s)
  }

  predicate StartsWith(s: string, e: string) {
    |e| <= |s| && s[..|e|] == e
  }

  /** The character an entity at the front of the text stands for, and its length. */
  function EntityAt(s: string): (r: Option<(char, nat)>)
    ensures r.Some? ==> 0 < r.value.1 <= |s|
  {
    if |s| < 2 || s[0] != '&' then None
    else
      match s[1]
      case 'a' => if StartsWith(s, "&amp;") then Some(('&', 5)) else None
      case 'l' => if StartsWith(s, "&lt;") then Some(('<', 4)) else None
      case 'g' => if StartsWith(s, "&gt;") then Some(('>', 4)) else None
      case 'q' => if StartsWith(s, "&quot;") then Some(('\"', 6)) else None
      case '#' => if StartsWith(s, "&#39;") then Some(('\'', 5)) else None
      case _ => None
  }

  /** A decoder for the five entities the page uses. */
  function HtmlUnescape(s: string): string
    decreases |s|
  {
    if s == "" then ""
    else
      match EntityAt(s)
      case Some((c, n)) => [c] + HtmlUnescape(s[n..])
      case None => [s[0]] + HtmlUnescape(s[1..])
  }

  lemma EntityOfByte(c: char, rest: string)
    ensures EntityAt(HtmlByte(c) + rest) == if |HtmlByte(c)| == 1 then None else Some((c, |HtmlByte(c)|))
  {
  }

  lemma HtmlByteDecodes(c: char, rest: string)
    ensures HtmlUnescape(HtmlByte(c) + rest) == [c] + HtmlUnescape(rest)
  {
    EntityOfByte(c, rest);
    var e := HtmlByte(c);
    assert e != "" && (|e| == 1 ==> e == [c]);
    hide HtmlByte, EntityAt;
    var s := e + rest;
    assert s[|e|..] == rest && s[0] == e[0];
  }

  lemma HtmlByteIsPlain(c: char)
    ensures forall d :: d in HtmlByte(c) ==> d != '<' && d != '>' && d != '\"' && d != '\''
  {
  }

  /** Escaped text has no raw markup character and unescapes to the original. */
  lemma {:induction false} HtmlRoundTrip(s: string)
    ensures HtmlUnescape(HtmlEscape(s)) == s
    ensures forall c :: c in HtmlEscape(s) ==> c != '<' && c != '>' && c != '\"' && c != '\''
  {
    if s != "" {
      HtmlByteDecodes(s[0], HtmlEscape(s[1..]));
      HtmlByteIsPlain(s[0]);
      HtmlRoundTrip(s[1..]);
      hide HtmlUnescape, HtmlByte;
    }
  }

  // ------------------------------------------------------------- JSON

  function JsonByte(c: char): string {
    match c
    case '\"' => "\\\""
    case '\\' => "\\\\"
    case '\U{08}' => "\\b"
    case '\U{0C}' => "\\f"
    case '\n' => "\\n"
    case '\r' => "\\r"
    case '\t' => "\\t"
    case _ =>
      if c as int < 0x20 then ['\\', 'u', '0', '0', HexDigit(c as int / 16 % 16, 'a'), HexDigit(c as int % 16, 'a')]
      else [c]
  }

  function JsonEscape(s: string): string {
    Expand(JsonByte, s)
  }

  /** The character of a two-character escape of section 7 of RFC 8259. */
  function ShortEscape(c: char): Option<char> {
    match c
    case '\"' => Some('\"')
    case '\\' => Some('\\')
    case '/' => Some('/')
    case 'b' => Some('\U{08}')
    case 'f' => Some('\U{0C}')
    case 'n' => Some('\n')
    case 'r' => Some('\r')
    case 't' => Some('\t')
    case _ => None
  }

  /** One character of a JSON string body and how much text it takes, None where the
      text is malformed: a raw quote or control character, or a bad escape.
      Four-digit escapes are read up to code 255. */
  function JsonCharAt(s: string): (r: Option<(char, nat)>)
    requires s != ""
    ensures r.Some? ==> 0 < r.value.1 <= |s|
  {
    if s[0] == '\"' || s[0] as int < 0x20 then None
    else if s[0] != '\\' then Some((s[0], 1))
    else if |s| < 2 then None
    else if s[1] != 'u' then (match ShortEscape(s[1]) case Some(c) => Some((c, 2)) case None => None)
    else if |s| > 5 && s[2] == '0' && s[3] == '0' && HexValue(s[4]) < 16 && HexValue(s[5]) < 16 then
      Some(((16 * HexValue(s[4]) + HexValue(s[5])) as char, 6))
    else None
  }

  function Prepend(c: char, rest: Option<string>): Option<string> {
    match rest
    case Some(s) => Some([c] + s)
    case None => None
  }

  /** The text a JSON string body stands for by section 7 of RFC 8259. */
  function JsonUnescape(s: string): Option<string>
    decreases |s|
  {
    if s == "" then Some("")
    else
      match JsonCharAt(s)
      case Some((c, n)) => Prepend(c, JsonUnescape(s[n..]))
      case None => None
  }

  lemma JsonCharOfByte(c: char, rest: string)
    ensures var e := JsonByte(c);
            e != "" && JsonCharAt(e + rest) == Some((c, |e|)) && forall d :: d in e ==> d as int >= 0x20
  {
    hide HexDigit, HexValue;
    var e := JsonByte(c);
    var s := e + rest;
    assert forall k :: 0 <= k < |e| ==> s[k] == e[k];
    if |e| == 6 {
      HexValueOfDigit(c as int / 16 % 16, 'a');
      HexValueOfDigit(c as int % 16, 'a');
      assert s[4] == e[4] && s[5] == e[5];
    } else if |e| == 2 {
      assert s[0] == '\\' && s[1] == e[1];
    }
  }

  /** Quote, backslash and the five named control bytes get the short escapes, the other
      control bytes the long one, and nothing else is escaped. */
  lemma JsonByteLength(c: char)
    ensures |JsonByte(c)| ==
            if c == '\"' || c == '\\' || c as int in {8, 9, 10, 12, 13} then 2 else if c as int < 32 then 6 else 1
  {
  }

  lemma JsonByteDecodes(c: char, rest: string)
    ensures JsonUnescape(JsonByte(c) + rest) == Prepend(c, JsonUnescape(rest))
  {
    JsonCharOfByte(c, rest);
    hide JsonByte, JsonCharAt;
    var e := JsonByte(c);
    assert (e + rest)[|e|..] == rest;
  }

  /** Escaped text is a well-formed JSON string body that decodes to the original,
      with no raw control character in it. */
  lemma {:induction false} JsonRoundTrip(s: string)
    ensures JsonUnescape(JsonEscape(s)) == Some(s)
    ensures forall c :: c in JsonEscape(s) ==> c as int >= 0x20
  {
    if s != "" {
      JsonByteDecodes(s[0], JsonEscape(s[1..]));
      JsonCharOfByte(s[0], "");
      JsonRoundTrip(s[1..]);
      hide JsonUnescape, JsonByte;
      assert [s[0]] + s[1..] == s;
    }
  }

  // ------------------------------------------------------------- the loops

  lemma ExpandRest(escape: char -> string, s: string, i: nat)
    requires i < |s|
    ensures Expand(escape, s[i..]) == escape(s[i]) + Expand(escape, s[i + 1..])
  {
  }

  method UrlEncodeSimple(s: string) returns (out: string)
    ensures out == UrlEncode(s)
  {
    out := "";
    for i := 0 to |s|
      invariant out + UrlEncode(s[i..]) == UrlEncode(s)
    {
      ExpandRest(UrlByte, s, i);
      out := out + UrlByte(s[i]);
    }
  }

  method UrlDecodeLoop(s: string) returns (out: string)
    ensures out == UrlDecode(s)
  {
    out := "";
    var i := 0;
    while i < |s|
      invariant 0 <= i <= |s| && out + UrlDecode(s[i..]) == UrlDecode(s)
    {
      hide HexPair;
      var t := s[i..];
      if s[i] == '%' && i + 2 < |s| {
        assert t[3..] == s[i + 3..];
        Regroup(out, HexPair(t[1], t[2]), UrlDecode(t[3..]));
        out := out + [HexPair(s[i + 1], s[i + 2])];
        i := i + 2;
      } else {
        assert t[1..] == s[i + 1..];
        Regroup(out, if t[0] == '+' then ' ' else t[0], UrlDecode(t[1..]));
        out := out + [if s[i] == '+' then ' ' else s[i]];
      }
      i := i + 1;
    }
  }

  method GetQueryParam(path: string, key: string) returns (value: string)
    ensures value == GetParam(path, key)
  {
    if '?' !in path {
      assert Until(path, '?') == |path|;
      return "";
    }
    var stream := Rest(path, '?');
    while stream != ""
      invariant Find(Items(stream, '&'), key) == GetParam(path, key)
      decreases |stream|
    {
      var token := Item(stream, '&');
      assert Items(stream, '&')[1..] == Items(Rest(stream, '&'), '&');
      if Item(token, '=') == key {
        value := UrlDecodeLoop(Rest(token, '='));
        return;
      }
      stream := Rest(stream, '&');
    }
    value := "";
  }

  method HtmlEscapeLoop(s: string) returns (out: string)
    ensures out == HtmlEscape(s)
  {
    out := "";
    for i := 0 to |s|
      invariant out + HtmlEscape(s[i..]) == HtmlEscape(s)
    {
      ExpandRest(HtmlByte, s, i);
      out := out + HtmlByte(s[i]);
    }
  }

  method JsonEscapeLoop(s: string) returns (out: string)
    ensures out == JsonEscape(s)
  {
    out := "";
    for i := 0 to |s|
      invariant out + JsonEscape(s[i..]) == JsonEscape(s)
    {
      ExpandRest(JsonByte, s, i);
      out := out + JsonByte(s[i]);
    }
  }
}
