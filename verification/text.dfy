// The string functions the other modules use: splitting, trimming, decimal numbers.

module Text {
  // With the members that let `:-` pass a None on.
  datatype Option<T> = None | Some(value: T) {
    predicate IsFailure() {
      None?
    }

    function PropagateFailure<U>(): Option<U>
      requires None?
    {
      None
    }

    function Extract(): T
      requires Some?
    {
      value
    }
  }

  // unicode.IsSpace
  predicate IsSpace(c: char) {
    c == '\t' || c == '\n' || c == '\U{b}' || c == '\U{c}' || c == '\r' || c == ' ' || c == '\U{85}' || c == '\U{a0}'
    || c == '\U{1680}' || '\U{2000}' <= c <= '\U{200a}' || c == '\U{2028}' || c == '\U{2029}' || c == '\U{202f}'
    || c == '\U{205f}' || c == '\U{3000}'
  }

  function TrimLeft(s: string): string {
    if s != "" && IsSpace(s[0]) then TrimLeft(s[1..]) else s
  }

  function TrimRight(s: string): string {
    if s != "" && IsSpace(s[|s| - 1]) then TrimRight(s[..|s| - 1]) else s
  }

  function TrimSpace(s: string): string {
    TrimRight(TrimLeft(s))
  }

  // A string TrimSpace leaves alone.
  ghost predicate Trimmed(s: string) {
    s == "" || (!IsSpace(s[0]) && !IsSpace(s[|s| - 1]))
  }

  lemma {:induction false} TrimLeftSuffix(s: string)
    ensures var r := TrimLeft(s); |r| <= |s| && r == s[|s| - |r|..] && (r == "" || !IsSpace(r[0]))
  {
    if s != "" && IsSpace(s[0]) { TrimLeftSuffix(s[1..]); }
  }

  lemma {:induction false} TrimRightPrefix(s: string)
    ensures var r := TrimRight(s); r <= s && (r == "" || !IsSpace(r[|r| - 1]))
  {
    if s != "" && IsSpace(s[|s| - 1]) { TrimRightPrefix(s[..|s| - 1]); }
  }

  // The result is a trimmed piece of the string, and trimmed strings do not change.
  lemma TrimSpaceIs(s: string)
    ensures Trimmed(TrimSpace(s))
    ensures Trimmed(s) ==> TrimSpace(s) == s
    ensures forall c :: c in TrimSpace(s) ==> c in s
  {
    TrimLeftSuffix(s);
    TrimRightPrefix(TrimLeft(s));
  }

  // ---------- strings.Split and strings.Join with a one-character separator ----------

  function Split(s: string, sep: char): (parts: seq<string>)
    ensures |parts| > 0
  {
    if s == "" then [""]
    else
      var rest := Split(s[1..], sep);
      if s[0] == sep then [""] + rest else [[s[0]] + rest[0]] + rest[1..]
  }

  function Join(parts: seq<string>, sep: char): string {
    if parts == [] then ""
    else if |parts| == 1 then parts[0]
    else parts[0] + [sep] + Join(parts[1..], sep)
  }

  ghost predicate Free(s: string, sep: char) {
    sep !in s
  }

  lemma {:induction false} SplitFree(p: string, sep: char)
    requires Free(p, sep)
    ensures Split(p, sep) == [p]
  {
    if p != "" {
      SplitFree(p[1..], sep);
      assert p[0] in p && [p[0]] + p[1..] == p;
    }
  }

  lemma {:induction false} SplitFirst(p: string, sep: char, rest: string)
    requires Free(p, sep)
    ensures Split(p + [sep] + rest, sep) == [p] + Split(rest, sep)
  {
    var s := p + [sep] + rest;
    if p == "" {
      assert s[1..] == rest;
    } else {
      SplitFirst(p[1..], sep, rest);
      assert s[1..] == p[1..] + [sep] + rest;
      assert p[0] in p && [p[0]] + p[1..] == p && s[0] == p[0];
    }
  }

  // Splitting a joined list gives the list back.
  lemma {:induction false} SplitJoin(parts: seq<string>, sep: char)
    requires parts != [] && forall p :: p in parts ==> Free(p, sep)
    ensures Split(Join(parts, sep), sep) == parts
  {
    if |parts| == 1 {
      SplitFree(parts[0], sep);
    } else {
      SplitJoin(parts[1..], sep);
      SplitFirst(parts[0], sep, Join(parts[1..], sep));
    }
  }

  lemma {:induction false} JoinSnoc(parts: seq<string>, sep: char, last: string)
    requires parts != []
    ensures Join(parts + [last], sep) == Join(parts, sep) + [sep] + last
  {
    if |parts| > 1 {
      JoinSnoc(parts[1..], sep, last);
      assert (parts + [last])[1..] == parts[1..] + [last];
    }
  }

  // ---------- Trimming joined strings ----------

  ghost predicate Blank(s: string) {
    forall c :: c in s ==> IsSpace(c)
  }

  // A part with something to trim to.
  ghost predicate Solid(s: string) {
    s != "" && Trimmed(s)
  }

  lemma {:induction false} TrimBlank(s: string)
    requires Blank(s)
    ensures TrimSpace(s) == ""
  {
    if s != "" {
      assert s[0] in s && forall c :: c in s[1..] ==> c in s;
      TrimBlank(s[1..]);
    }
  }

  lemma {:induction false} JoinBlank(parts: seq<string>, sep: char)
    requires IsSpace(sep) && forall p :: p in parts ==> p == ""
    ensures Blank(Join(parts, sep))
  {
    if parts != [] {
      assert parts[0] in parts && forall p :: p in parts[1..] ==> p in parts;
      JoinBlank(parts[1..], sep);
    }
  }

  lemma {:induction false} TrimRightPad(s: string, pad: string)
    requires s != "" && !IsSpace(s[|s| - 1]) && Blank(pad)
    ensures TrimRight(s + pad) == s
  {
    if pad == "" {
      assert s + pad == s;
    } else {
      var n := |pad| - 1;
      assert pad[n] in pad && forall c :: c in pad[..n] ==> c in pad;
      assert (s + pad)[..|s + pad| - 1] == s + pad[..n];
      TrimRightPad(s, pad[..n]);
    }
  }

  lemma {:induction false} JoinEnds(parts: seq<string>, sep: char)
    requires parts != [] && parts[|parts| - 1] != ""
    ensures var s, last := Join(parts, sep), parts[|parts| - 1]; s != "" && s[|s| - 1] == last[|last| - 1]
  {
    if |parts| > 1 { JoinEnds(parts[1..], sep); }
  }

  // Empty parts at the end of a list joined by white space are padding.
  lemma {:induction false} JoinPadding(parts: seq<string>, sep: char, n: nat) returns (pad: string)
    requires IsSpace(sep) && n < |parts| && forall i :: n < i < |parts| ==> parts[i] == ""
    ensures Blank(pad) && Join(parts, sep) == Join(parts[..n + 1], sep) + pad
  {
    var front := parts[..|parts| - 1];
    if n == |parts| - 1 {
      pad := "";
      assert parts[..n + 1] == parts;
    } else {
      pad := JoinPadding(front, sep, n);
      pad := pad + [sep];
      assert front[..n + 1] == parts[..n + 1];
      assert parts == front + [parts[|parts| - 1]];
      JoinSnoc(front, sep, "");
    }
  }

  lemma {:induction false} TrimLeftJoin(parts: seq<string>, sep: char, k: nat, ending: string)
    requires IsSpace(sep) && k < |parts| && Solid(parts[k]) && forall i :: 0 <= i < k ==> parts[i] == ""
    ensures TrimLeft(Join(parts, sep) + ending) == Join(parts[k..], sep) + ending
    decreases k
  {
    var s := Join(parts, sep) + ending;
    if k == 0 {
      assert parts[0..] == parts;
      assert s[0] == parts[0][0];
    } else {
      TrimLeftJoin(parts[1..], sep, k - 1, ending);
      assert parts[1..][k - 1..] == parts[k..];
      assert s[1..] == Join(parts[1..], sep) + ending;
    }
  }

  lemma Concatenated(a: string, b: string, c: string)
    ensures a + b + c == a + (b + c)
  {}

  lemma TrimRightTwoPads(s: string, pad: string, ending: string)
    requires s != "" && !IsSpace(s[|s| - 1]) && Blank(pad) && Blank(ending)
    ensures TrimRight(s + pad + ending) == s
  {
    Concatenated(s, pad, ending);
    TrimRightPad(s, pad + ending);
  }

  lemma TrimRightJoin(parts: seq<string>, sep: char, n: nat, ending: string)
    requires IsSpace(sep) && Blank(ending) && n < |parts| && Solid(parts[n])
    requires forall i :: n < i < |parts| ==> parts[i] == ""
    ensures TrimRight(Join(parts, sep) + ending) == Join(parts[..n + 1], sep)
  {
    var front := parts[..n + 1];
    var kept := Join(front, sep);
    assert kept != "" && !IsSpace(kept[|kept| - 1]) by {
      assert front[|front| - 1] == parts[n];
      JoinEnds(front, sep);
    }
    var pad := JoinPadding(parts, sep, n);
    TrimRightTwoPads(kept, pad, ending);
  }

  // Trimming a list joined by white space drops the empty parts at both ends.
  lemma TrimJoin(parts: seq<string>, sep: char, k: nat, l: nat, ending: string)
    requires IsSpace(sep) && Blank(ending) && k <= l < |parts| && Solid(parts[k]) && Solid(parts[l])
    requires forall i :: 0 <= i < |parts| && !(k <= i <= l) ==> parts[i] == ""
    ensures TrimSpace(Join(parts, sep) + ending) == Join(parts[k..l + 1], sep)
  {
    TrimLeftJoin(parts, sep, k, ending);
    TrimRightJoin(parts[k..], sep, l - k, ending);
    assert parts[k..][..l - k + 1] == parts[k..l + 1];
  }

  // ---------- Decimal numbers ----------

  function Digit(d: nat): char
    requires d < 10
  {
    (d + '0' as int) as char
  }

  predicate IsDigit(c: char) {
    '0' <= c <= '9'
  }

  function DigitValue(c: char): (d: nat)
    requires IsDigit(c)
    ensures d < 10
  {
    c as int - '0' as int
  }

  function Itoa(n: nat): string {
    if n < 10 then [Digit(n)] else Itoa(n / 10) + [Digit(n % 10)]
  }

  predicate Digits(s: string) {
    s != "" && forall i :: 0 <= i < |s| ==> IsDigit(s[i])
  }

  // The number a string of digits denotes.
  function Decimal(s: string): nat
    requires forall i :: 0 <= i < |s| ==> IsDigit(s[i])
  {
    if s == "" then 0 else Decimal(s[..|s| - 1]) * 10 + DigitValue(s[|s| - 1])
  }

  lemma {:induction false} ItoaDecimal(n: nat)
    ensures Digits(Itoa(n)) && Decimal(Itoa(n)) == n
  {
    if n >= 10 {
      ItoaDecimal(n / 10);
      assert Itoa(n)[..|Itoa(n)| - 1] == Itoa(n / 10);
    } else {
      assert Itoa(n)[..0] == "";
    }
  }

  lemma ItoaInjective(a: nat, b: nat)
    requires Itoa(a) == Itoa(b)
    ensures a == b
  {
    ItoaDecimal(a);
    ItoaDecimal(b);
  }

  lemma ItoaFree(n: nat, sep: char)
    requires !IsDigit(sep)
    ensures Free(Itoa(n), sep)
  {
    ItoaDecimal(n);
  }

  // strconv.Itoa
  function FormatInt(i: int): string {
    if i < 0 then "-" + Itoa(-i) else Itoa(i)
  }

  const MAX_INT := 0x7fff_ffff_ffff_ffff

  // A 64-bit integer.
  type Word = i: int | -MAX_INT - 1 <= i <= MAX_INT

  // strconv.Atoi: an optional sign and digits, within 64 bits.
  function Atoi(s: string): Option<Word> {
    var digits := if s != "" && (s[0] == '+' || s[0] == '-') then s[1..] else s;
    if digits == "" || exists i :: 0 <= i < |digits| && !IsDigit(digits[i]) then None
    else
      var n: int := Decimal(digits);
      var v := if s[0] == '-' then -n else n;
      if -MAX_INT - 1 <= v <= MAX_INT then Some(v) else None
  }

  lemma AtoiOfFormatInt(i: Word)
    ensures Atoi(FormatInt(i)) == Some(i)
  {
    var n: int := i;
    ItoaDecimal(if n < 0 then -n else n);
    assert n < 0 ==> FormatInt(n)[1..] == Itoa(-n);
  }

  // A numeral too long for 64 bits is no number.
  lemma AtoiOfItoa(n: nat)
    ensures Atoi(Itoa(n)) == if n <= MAX_INT then Some(n) else None
  {
    ItoaDecimal(n);
    assert Itoa(n)[0] != '+' && Itoa(n)[0] != '-';
  }
}
