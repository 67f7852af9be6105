/** The string operations the gateway builds on. A byte is the `char` of its code. */
module Text {
  import opened PointTypes

  lemma Regroup<T>(done: seq<T>, x: T, todo: seq<T>)
    ensures done + ([x] + todo) == (done + [x]) + todo
  {
  }

  // ---------------------------------------------------------------- trimming

  predicate IsBlank(c: char) {
    c == ' ' || c == '\t' || c == '\r' || c == '\n'
  }

  predicate Trimmed(s: string) {
    s == "" || (!IsBlank(s[0]) && !IsBlank(s[|s| - 1]))
  }

  /** What is left between the first and the last non-blank character. */
  function TrimCopy(s: string): (r: string)
    ensures Trimmed(r)
    ensures Trimmed(s) ==> r == s
    ensures s != "" && !IsBlank(s[0]) ==> r != "" && r[0] == s[0]
    ensures forall c :: c in r ==> c in s
  {
    if s == "" then s
    else if IsBlank(s[0]) then TrimCopy(s[1..])
    else if IsBlank(s[|s| - 1]) then TrimCopy(s[..|s| - 1])
    else s
  }

  predicate AllBlank(s: string) {
    forall c :: c in s ==> IsBlank(c)
  }

  /** A slice of s with nothing but blanks cut off at either end. */
  ghost predicate IsTrimOf(s: string, r: string) {
    exists i, j :: 0 <= i <= j <= |s| && r == s[i..j] && AllBlank(s[..i]) && AllBlank(s[j..])
  }

  lemma {:induction false} TrimPeels(front: string, core: string, back: string)
    requires AllBlank(front) && AllBlank(back) && Trimmed(core)
    ensures TrimCopy(front + core + back) == core
    decreases |front| + 2 * |back|
  {
    var s := front + core + back;
    if front != "" {
      assert s[0] == front[0] && front[0] in front && s[1..] == front[1..] + core + back;
      TrimPeels(front[1..], core, back);
    } else if back == "" {
      assert s == core;
    } else if core == "" {
      assert s == back + "" + "";
      TrimPeels(back, "", "");
    } else {
      var rest := back[..|back| - 1];
      assert s[0] == core[0] && s[|s| - 1] == back[|back| - 1] && back[|back| - 1] in back;
      assert s[..|s| - 1] == front + core + rest;
      TrimPeels(front, core, rest);
    }
  }

  lemma BlankAppend(a: string, b: string)
    ensures AllBlank(a + b) <==> AllBlank(a) && AllBlank(b)
  {
    assert forall c :: c in a + b <==> c in a || c in b;
  }

  lemma MoreFront(s: string, front: string, core: string, back: string)
    requires s != "" && s[1..] == front + core + back
    ensures s == [s[0]] + front + core + back
  {
    assert s == [s[0]] + s[1..];
  }

  lemma MoreBack(s: string, front: string, core: string, back: string)
    requires s != "" && s[..|s| - 1] == front + core + back
    ensures s == front + core + (back + [s[|s| - 1]])
  {
    assert s == s[..|s| - 1] + [s[|s| - 1]];
  }

  /** Cutting the blanks off: what is before, what stays, what is behind. */
  lemma {:induction false} TrimCuts(s: string) returns (front: string, back: string)
    ensures s == front + TrimCopy(s) + back && AllBlank(front) && AllBlank(back)
    ensures TrimCopy(s) == "" ==> back == ""
    decreases |s|
  {
    if s == "" {
      front, back := "", "";
    } else if IsBlank(s[0]) {
      var f, b := TrimCuts(s[1..]);
      front, back := [s[0]] + f, b;
      MoreFront(s, f, TrimCopy(s[1..]), b);
      BlankAppend([s[0]], f);
    } else if IsBlank(s[|s| - 1]) {
      var f, b := TrimCuts(s[..|s| - 1]);
      front, back := f, b + [s[|s| - 1]];
      MoreBack(s, f, TrimCopy(s[..|s| - 1]), b);
      BlankAppend(b, [s[|s| - 1]]);
    } else {
      front, back := "", "";
      assert s == "" + s + "";
    }
  }

  lemma ThreeSlices(s: string, k: nat, l: nat)
    requires k <= l <= |s|
    ensures s == s[..k] + s[k..l] + s[l..]
  {
  }

  lemma MiddleIsTrim(front: string, core: string, back: string)
    requires AllBlank(front) && AllBlank(back)
    ensures IsTrimOf(front + core + back, core)
  {
    hide AllBlank;
    var s, i, j := front + core + back, |front|, |front| + |core|;
    assert s[..i] == front && s[i..j] == core && s[j..] == back;
  }

  /** Trimming gives the one slice that is trimmed and has only blanks cut off. */
  lemma TrimCopyExactly(s: string, r: string)
    ensures r == TrimCopy(s) <==> Trimmed(r) && IsTrimOf(s, r)
  {
    hide AllBlank, TrimCopy, Trimmed;
    var front, back := TrimCuts(s);
    MiddleIsTrim(front, TrimCopy(s), back);
    if Trimmed(r) && IsTrimOf(s, r) {
      var k, l :| 0 <= k <= l <= |s| && r == s[k..l] && AllBlank(s[..k]) && AllBlank(s[l..]);
      hide IsTrimOf;
      ThreeSlices(s, k, l);
      TrimPeels(s[..k], r, s[l..]);
    }
  }

  function LowerChar(c: char): char {
    if 'A' <= c <= 'Z' then (c as int + 32) as char else c
  }

  function Lower(s: string): string {
    if s == "" then "" else [LowerChar(s[0])] + Lower(s[1..])
  }

  function NormalizeToken(s: string): string {
    Lower(TrimCopy(s))
  }

  predicate LowerToken(s: string) {
    s != "" && Trimmed(s) && forall c :: c in s ==> !('A' <= c <= 'Z')
  }

  lemma {:induction false} LowerFixed(s: string)
    requires forall c :: c in s ==> !('A' <= c <= 'Z')
    ensures Lower(s) == s
  {
    if s != "" {
      assert s[0] in s && forall c :: c in s[1..] ==> c in s;
      LowerFixed(s[1..]);
    }
  }

  lemma NormalizeFixed(s: string)
    requires LowerToken(s)
    ensures NormalizeToken(s) == s
  {
    LowerFixed(s);
  }

  /** The text is the token with some of its letters in upper case. */
  ghost predicate AnyCase(s: string, token: string) {
    && |s| == |token|
    && forall i :: 0 <= i < |s| ==>
                     s[i] == token[i] || ('a' <= token[i] <= 'z' && s[i] as int == token[i] as int - 32)
  }

  lemma {:induction false} LowerOfAnyCase(s: string, token: string)
    requires AnyCase(s, token) && forall c :: c in token ==> !('A' <= c <= 'Z')
    ensures Lower(s) == token
  {
    if s != "" {
      assert token[0] in token && forall c :: c in token[1..] ==> c in token;
      LowerOfAnyCase(s[1..], token[1..]);
    }
  }

  /** A token is recognised in any case and with any blanks around it. */
  lemma NormalizeAnyCase(front: string, s: string, back: string, token: string)
    requires AllBlank(front) && AllBlank(back) && AnyCase(s, token) && LowerToken(token)
    ensures NormalizeToken(front + s + back) == token
  {
    LowerOfAnyCase(s, token);
    assert Trimmed(s);
    hide Lower, AllBlank;
    TrimPeels(front, s, back);
  }

  // ------------------------------------------------- getline with a delimiter

  /** Index of the first `d`, or the length. */
  function Until(s: string, d: char): (k: nat)
    ensures k <= |s| && d !in s[..k]
    ensures k < |s| ==> s[k] == d
    ensures d in s ==> k < |s|
  {
    if s == "" || s[0] == d then 0
    else
      var k := Until(s[1..], d);
      assert s[..k + 1] == [s[0]] + s[1..][..k];
      k + 1
  }

  /** What one getline returns, and what it leaves in the stream. */
  function Item(s: string, d: char): string {
    s[..Until(s, d)]
  }

  function Rest(s: string, d: char): (r: string)
    ensures s != "" ==> |r| < |s|
  {
    var k := Until(s, d);
    if k < |s| then s[k + 1..] else ""
  }

  /** Everything a getline loop reads: a trailing delimiter opens no further item. */
  function Items(s: string, d: char): seq<string>
    decreases |s|
  {
    if s == "" then [] else [Item(s, d)] + Items(Rest(s, d), d)
  }

  lemma UntilIs(s: string, d: char, k: nat)
    requires k <= |s| && d !in s[..k]
    requires k < |s| ==> s[k] == d
    ensures Until(s, d) == k
  {
  }

  lemma ItemsStep(a: string, d: char, rest: string)
    requires d !in a
    ensures Items(a + [d] + rest, d) == [a] + Items(rest, d)
  {
    var s := a + [d] + rest;
    assert s[..|a|] == a;
    UntilIs(s, d, |a|);
    assert s[|a| + 1..] == rest;
  }

  lemma ItemsLast(a: string, d: char)
    requires d !in a && a != ""
    ensures Items(a, d) == [a]
  {
    assert a[..|a|] == a;
    UntilIs(a, d, |a|);
  }

  lemma {:induction false} ItemsFree(s: string, d: char)
    ensures forall f :: f in Items(s, d) ==> d !in f && (forall c :: c in f ==> c in s)
    decreases |s|
  {
    if s != "" {
      ItemsFree(Rest(s, d), d);
    }
  }

  predicate Terminated(s: string, d: char) {
    s == "" || s[|s| - 1] == d
  }

  lemma ItemsOfEmpty(d: char)
    ensures Items("", d) == []
  {
  }

  lemma FirstItem(s: string, d: char)
    requires s != "" && Terminated(s, d)
    ensures s == Item(s, d) + [d] + Rest(s, d) && d !in Item(s, d) && Terminated(Rest(s, d), d)
    ensures Items(s, d) == [Item(s, d)] + Items(Rest(s, d), d)
  {
    assert s[|s| - 1] in s;
    hide Items;
    var k := Until(s, d);
    assert s == s[..k] + [s[k]] + s[k + 1..];
  }

  lemma ItemsAppendStep(head: string, d: char, tail: string, t: string)
    requires d !in head && Items(tail + t, d) == Items(tail, d) + Items(t, d)
    ensures Items(head + [d] + tail + t, d) == [head] + Items(tail, d) + Items(t, d)
  {
    hide Items;
    ItemsStep(head, d, tail + t);
    assert head + [d] + (tail + t) == head + [d] + tail + t;
  }

  /** Text ending in its delimiter splits independently of what follows. */
  lemma {:induction false} ItemsAppend(s: string, d: char, t: string)
    requires Terminated(s, d)
    ensures Items(s + t, d) == Items(s, d) + Items(t, d)
    decreases |s|
  {
    hide Items, Item, Rest;
    if s == "" {
      ItemsOfEmpty(d);
      assert s + t == t;
    } else {
      FirstItem(s, d);
      ItemsAppend(Rest(s, d), d, t);
      ItemsAppendStep(Item(s, d), d, Rest(s, d), t);
    }
  }

  // ------------------------------------------------------- integers as text

  predicate IsDigit(c: char) {
    '0' <= c <= '9'
  }

  function DigitChar(d: nat): (c: char)
    requires d < 10
    ensures IsDigit(c)
  {
    ('0' as int + d) as char
  }

  function PrintNat(n: nat): (s: string)
    ensures s != "" && forall c :: c in s ==> IsDigit(c)
  {
    if n < 10 then [DigitChar(n)] else PrintNat(n / 10) + [DigitChar(n % 10)]
  }

  function PrintInt(n: int): string {
    if n < 0 then "-" + PrintNat(-n) else PrintNat(n)
  }

  /** The printer writes no leading zero. */
  lemma {:induction false} PrintNatIsShort(n: nat)
    ensures PrintNat(n)[0] == '0' <==> n == 0
    ensures |PrintNat(n)| == 1 <==> n < 10
  {
    if n >= 10 {
      PrintNatIsShort(n / 10);
    }
  }

  /** The value of a run of digits. */
  function DigitsValue(s: string): nat
    requires forall c :: c in s ==> IsDigit(c)
  {
    if s == "" then 0
    else
      assert IsDigit(s[|s| - 1]);
      10 * DigitsValue(s[..|s| - 1]) + (s[|s| - 1] as int - '0' as int)
  }

  /** The isspace class, which is wider than what trimming removes. */
  predicate IsSpace(c: char) {
    c == ' ' || '\t' <= c <= '\r'
  }

  /** Beyond the blanks, isspace takes the vertical tab and the form feed. */
  lemma SpacesAndBlanks(c: char)
    ensures IsSpace(c) <==> IsBlank(c) || c as int == 11 || c as int == 12
  {
  }

  function DigitRun(s: string): (r: string)
    ensures forall c :: c in r ==> IsDigit(c)
  {
    if s != "" && IsDigit(s[0]) then [s[0]] + DigitRun(s[1..]) else ""
  }

  function InInt32(v: int): (r: Option<int32>)
  {
    if -0x8000_0000 <= v < 0x8000_0000 then Some(v) else None
  }

  /** std::stoi: leading spaces, optional sign, maximal digit run; anything after
      the digits is ignored. None where the library throws. */
  function Stoi(s: string): Option<int32> {
    if s == "" then None
    else if IsSpace(s[0]) then Stoi(s[1..])
    else if s[0] == '-' then Signed(DigitRun(s[1..]), -1)
    else Signed(DigitRun(if s[0] == '+' then s[1..] else s), 1)
  }

  function Signed(run: string, sign: int): Option<int32>
    requires forall c :: c in run ==> IsDigit(c)
  {
    if run == "" then None else InInt32(sign * DigitsValue(run))
  }

  lemma {:induction false} DigitRunAll(s: string)
    requires forall c :: c in s ==> IsDigit(c)
    ensures DigitRun(s) == s
  {
    if s != "" {
      assert forall c :: c in s[1..] ==> c in s;
      DigitRunAll(s[1..]);
    }
  }

  lemma {:induction false} DigitsValuePrint(n: nat)
    ensures DigitsValue(PrintNat(n)) == n
  {
    if n < 10 {
      assert [DigitChar(n)][..0] == "";
      assert DigitsValue("") == 0;
    } else {
      var front := PrintNat(n / 10);
      DigitsValuePrint(n / 10);
      assert PrintNat(n)[..|front|] == front;
    }
  }

  lemma {:induction false} DigitRunStops(digits: string, rest: string)
    requires forall c :: c in digits ==> IsDigit(c)
    requires rest == "" || !IsDigit(rest[0])
    ensures DigitRun(digits + rest) == digits
  {
    if digits == "" {
      assert digits + rest == rest;
    } else {
      assert digits[0] in digits;
      assert (digits + rest)[1..] == digits[1..] + rest;
      DigitRunStops(digits[1..], rest);
    }
  }

  lemma {:induction false} StoiSkipsSpaces(spaces: string, rest: string)
    requires forall c :: c in spaces ==> IsSpace(c)
    ensures Stoi(spaces + rest) == Stoi(rest)
  {
    hide DigitRun, Signed;
    if spaces == "" {
      assert spaces + rest == rest;
    } else {
      assert spaces[0] in spaces && (spaces + rest)[1..] == spaces[1..] + rest;
      StoiSkipsSpaces(spaces[1..], rest);
    }
  }

  /** The whole of stoi: spaces, an optional sign, the longest run of digits, and anything
      behind it; no digits or a value outside 32 bits is a failure. */
  lemma StoiExactly(spaces: string, sign: string, digits: string, tail: string)
    requires (forall c :: c in spaces ==> IsSpace(c)) && (sign == "" || sign == "+" || sign == "-")
    requires (forall c :: c in digits ==> IsDigit(c)) && (tail == "" || !IsDigit(tail[0]))
    requires sign == "" && digits == "" && tail != "" ==> !IsSpace(tail[0]) && tail[0] != '+' && tail[0] != '-'
    ensures var value := if sign == "-" then -(DigitsValue(digits) as int) else DigitsValue(digits);
            Stoi(spaces + (sign + (digits + tail))) ==
            if digits != "" && -2147483648 <= value <= 2147483647 then Some(value) else None
  {
    var rest := digits + tail;
    StoiSkipsSpaces(spaces, sign + rest);
    DigitRunStops(digits, tail);
    assert digits != "" ==> IsDigit(rest[0]) by {
      assert digits != "" ==> digits[0] in digits;
    }
    hide DigitRun, DigitsValue;
    if sign == "" {
      assert sign + rest == rest;
    } else {
      assert (sign + rest)[1..] == rest;
    }
  }

  lemma StoiDigits(digits: string)
    requires digits != "" && forall c :: c in digits ==> IsDigit(c)
    ensures Stoi(digits) == InInt32(DigitsValue(digits))
    ensures Stoi("-" + digits) == InInt32(-(DigitsValue(digits) as int))
  {
    DigitRunAll(digits);
    assert IsDigit(digits[0]);
    var negative := "-" + digits;
    assert negative[1..] == digits;
  }

  lemma StoiPrint(n: int32)
    ensures Stoi(PrintInt(n)) == Some(n)
  {
    var magnitude: nat := if n < 0 then -(n as int) else n;
    StoiDigits(PrintNat(magnitude));
    DigitsValuePrint(magnitude);
  }

  /** A printed integer is a clean field: trimmed, with no separator in it. */
  lemma PrintIntClean(n: int)
    ensures PrintInt(n) != "" && Trimmed(PrintInt(n))
    ensures forall c :: c in PrintInt(n) ==> IsDigit(c) || c == '-'
  {
    var s := PrintInt(n);
    assert s[0] in s && s[|s| - 1] in s;
  }
}
