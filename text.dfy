/**
 * Character classes of the C locale, decimal rendering of integers (what
 * `operator<<` on an `int`/`long long` writes) and the reading of one integer
 * by `operator>>` on an input stream, with the end-of-file flag that the
 * stream sets when the scan ran into the end of its text.
 */
module Text {

  datatype Option<T> = None | Some(value: T)

  /** `isspace` in the C locale. */
  predicate IsSpace(c: char) {
    c == ' ' || c == '\t' || c == '\n' || c == '\r' || c == '\U{000B}' || c == '\U{000C}'
  }

  predicate IsDigit(c: char) {
    '0' <= c <= '9'
  }

  predicate AllDigits(s: string) {
    forall i :: 0 <= i < |s| ==> IsDigit(s[i])
  }

  function DigitChar(d: nat): (c: char)
    requires d < 10
    ensures IsDigit(c)
  {
    ('0' as int + d) as char
  }

  /** The value of a digit character. */
  function DigitValue(c: char): int {
    c as int - '0' as int
  }

  /** The decimal digits of `n`, most significant first, without leading zeros. */
  function NatToString(n: nat): (s: string)
    ensures |s| >= 1
    decreases n
  {
    if n < 10 then [DigitChar(n)] else NatToString(n / 10) + [DigitChar(n % 10)]
  }

  lemma {:induction false} NatToStringDigits(n: nat)
    ensures AllDigits(NatToString(n))
    decreases n
  {
    if n >= 10 {
      NatToStringDigits(n / 10);
    }
  }

  /** What `std::ostream << x` writes for an integer `x`. */
  function IntToString(x: int): (s: string)
    ensures |s| >= 1
  {
    if x < 0 then "-" + NatToString(-x) else NatToString(x)
  }

  /** The rendering is a minus sign exactly for negative numbers, and digits otherwise. */
  lemma IntToStringForm(x: int)
    ensures !IsSpace(IntToString(x)[0])
    ensures IntToString(x)[0] == '-' <==> x < 0
    ensures forall i :: 0 <= i < |IntToString(x)| ==> IntToString(x)[i] == '-' || IsDigit(IntToString(x)[i])
  {
    var s := IntToString(x);
    NatToStringDigits(if x < 0 then -x else x);
    if x < 0 {
      var d := NatToString(-x);
      assert forall i :: 1 <= i < |s| ==> s[i] == d[i - 1];
    }
  }

  /** The value of a non-empty run of decimal digits. */
  function DigitsValue(s: string): int {
    if s == [] then 0 else DigitsValue(s[..|s| - 1]) * 10 + DigitValue(s[|s| - 1])
  }

  /** Reading back the digits of a number gives the number. */
  lemma {:induction false} DigitsValueOfNatToString(n: nat)
    ensures DigitsValue(NatToString(n)) == n
    decreases n
  {
    var s := NatToString(n);
    if n >= 10 {
      DigitsValueOfNatToString(n / 10);
      assert s[..|s| - 1] == NatToString(n / 10);
    }
  }

  /** First index at or after `i` that is not white space (`std::ws`). */
  function SkipWs(s: string, i: nat): (j: nat)
    requires i <= |s|
    ensures i <= j <= |s|
    ensures j < |s| ==> !IsSpace(s[j])
    decreases |s| - i
  {
    if i < |s| && IsSpace(s[i]) then SkipWs(s, i + 1) else i
  }

  /** End of the run of digits that starts at `i`. */
  function DigitRunEnd(s: string, i: nat): (j: nat)
    requires i <= |s|
    ensures i <= j <= |s|
    ensures j < |s| ==> !IsDigit(s[j])
    decreases |s| - i
  {
    if i < |s| && IsDigit(s[i]) then DigitRunEnd(s, i + 1) else i
  }

  /**
   * The outcome of one `>> x` on an `int`: the value and the position after
   * it, or a failure that records whether the scan reached the end of the
   * text (which sets the stream's `eofbit`).
   */
  datatype Scan = Read(value: int, next: nat) | Failed(atEnd: bool)

  /** Extraction of a (signed) decimal integer from a position that is not white space. */
  function ReadIntAt(s: string, j: nat): (r: Scan)
    requires j <= |s|
    ensures r.Read? ==> j < r.next <= |s| && (r.next < |s| ==> !IsDigit(s[r.next]))
    ensures r.Failed? ==> (r.atEnd <==> j == |s| || (j + 1 == |s| && (s[j] == '-' || s[j] == '+')))
  {
    var signed := j < |s| && (s[j] == '-' || s[j] == '+');
    var k := if signed then j + 1 else j;
    var e := DigitRunEnd(s, k);
    if e == k then Failed(e == |s|)
    else
      var magnitude: int := DigitsValue(s[k..e]);
      Read(if signed && s[j] == '-' then -magnitude else magnitude, e)
  }

  /** `stream >> x` for an `int x`: skip white space, then extract. */
  function ReadInt(s: string, i: nat): (r: Scan)
    requires i <= |s|
    ensures r.Read? ==> i < r.next <= |s|
  {
    ReadIntAt(s, SkipWs(s, i))
  }

  /**
   * A rendered integer followed by a non-digit (or the end of the text) reads
   * back as itself, and the scan stops right after it.
   */
  lemma ReadIntRendered(s: string, i: nat, x: int)
    requires i + |IntToString(x)| <= |s|
    requires s[i..i + |IntToString(x)|] == IntToString(x)
    requires i + |IntToString(x)| < |s| ==> !IsDigit(s[i + |IntToString(x)|])
    ensures ReadInt(s, i) == Read(x, i + |IntToString(x)|)
  {
    var t := IntToString(x);
    assert s[i] == t[0];
    assert SkipWs(s, i) == i by {
      IntToStringForm(x);
    }
    if x < 0 {
      var d := NatToString(-x);
      assert t == "-" + d && |t| == 1 + |d|;
      assert s[i + 1..i + 1 + |d|] == t[1..];
      ReadNegative(s, i, -x);
    } else {
      ReadNonNegative(s, i, x);
    }
  }

  lemma ReadNegative(s: string, i: nat, n: nat)
    requires n > 0 && i + 1 + |NatToString(n)| <= |s|
    requires s[i] == '-' && s[i + 1..i + 1 + |NatToString(n)|] == NatToString(n)
    requires i + 1 + |NatToString(n)| < |s| ==> !IsDigit(s[i + 1 + |NatToString(n)|])
    ensures ReadIntAt(s, i) == Read(-(n as int), i + 1 + |NatToString(n)|)
  {
    DigitsRendered(s, i + 1, n);
  }

  lemma ReadNonNegative(s: string, i: nat, n: nat)
    requires i + |NatToString(n)| <= |s|
    requires s[i..i + |NatToString(n)|] == NatToString(n)
    requires i + |NatToString(n)| < |s| ==> !IsDigit(s[i + |NatToString(n)|])
    ensures ReadIntAt(s, i) == Read(n, i + |NatToString(n)|)
  {
    DigitsRendered(s, i, n);
  }

  /** A rendered natural number followed by a non-digit is one digit run with that value. */
  lemma DigitsRendered(s: string, i: nat, n: nat)
    requires i + |NatToString(n)| <= |s|
    requires s[i..i + |NatToString(n)|] == NatToString(n)
    requires i + |NatToString(n)| < |s| ==> !IsDigit(s[i + |NatToString(n)|])
    ensures IsDigit(s[i])
    ensures DigitRunEnd(s, i) == i + |NatToString(n)|
    ensures DigitsValue(s[i..i + |NatToString(n)|]) == n
  {
    assert s[i] == NatToString(n)[0];
    NatToStringDigits(n);
    DigitRunFull(s, i, i + |NatToString(n)|);
    DigitsValueOfNatToString(n);
  }

  /** A digit run that is followed by a non-digit ends there. */
  lemma {:induction false} DigitRunFull(s: string, i: nat, e: nat)
    requires i <= e <= |s|
    requires AllDigits(s[i..e])
    requires e < |s| ==> !IsDigit(s[e])
    ensures DigitRunEnd(s, i) == e
    decreases e - i
  {
    if i < e {
      assert IsDigit(s[i..e][0]);
      assert s[i + 1..e] == s[i..e][1..];
      DigitRunFull(s, i + 1, e);
    }
  }

  /** The elements of `xs` rendered in decimal and separated by `sep`. */
  function Join(xs: seq<int>, sep: string): (s: string)
    ensures xs == [] <==> s == []
  {
    if xs == [] then []
    else if |xs| == 1 then IntToString(xs[0])
    else IntToString(xs[0]) + sep + Join(xs[1..], sep)
  }

  /** The texts `f(x)` of the elements `x` of `xs`, written one after the other. */
  function Concat<T>(xs: seq<T>, f: T -> string): string {
    if xs == [] then [] else f(xs[0]) + Concat(xs[1..], f)
  }

  /** Writing one more element appends its text. */
  lemma {:induction false} ConcatSnoc<T>(xs: seq<T>, f: T -> string, k: nat)
    requires k < |xs|
    ensures Concat(xs[..k + 1], f) == Concat(xs[..k], f) + f(xs[k])
  {
    if k == 0 {
      assert xs[..1][1..] == [];
      assert xs[..0] == [];
    } else {
      var t := xs[1..];
      ConcatSnoc(t, f, k - 1);
      assert xs[..k + 1][1..] == t[..k];
      assert xs[..k][1..] == t[..k - 1];
      assert t[k - 1] == xs[k];
    }
  }

  /** Joining one more element adds the separator and its text. */
  lemma {:induction false} JoinSnoc(xs: seq<int>, x: int, sep: string)
    requires xs != []
    ensures Join(xs + [x], sep) == Join(xs, sep) + sep + IntToString(x)
  {
    var head := IntToString(xs[0]);
    var last := IntToString(x);
    if |xs| == 1 {
      assert (xs + [x])[1..] == [x];
      assert Join([x], sep) == last;
    } else {
      var rest := xs[1..];
      assert (xs + [x])[1..] == rest + [x];
      JoinSnoc(rest, x, sep);
      var r := Join(rest, sep);
      assert Join(xs + [x], sep) == head + sep + (r + sep + last);
      assert Join(xs, sep) == head + sep + r;
      Regroup(head, sep, r, last);
    }
  }

  lemma Regroup(a: string, b: string, c: string, d: string)
    ensures a + b + (c + b + d) == (a + b + c) + b + d
  {
  }

  /** Writes the elements of `xs` after `text`, with `sep` between consecutive ones. */
  method AppendJoined(text: string, xs: seq<int>, sep: string) returns (out: string)
    ensures out == text + Join(xs, sep)
  {
    out := text;
    var i := 0;
    while i < |xs|
      invariant 0 <= i <= |xs|
      invariant out == text + Join(xs[..i], sep) + (if 0 < i < |xs| then sep else [])
    {
      var item := IntToString(xs[i]);
      var tail: string := if i + 1 < |xs| then sep else [];
      ghost var done := Join(xs[..i], sep);
      assert xs[..i + 1] == xs[..i] + [xs[i]];
      if i == 0 {
        assert Join([xs[0]], sep) == item;
        assert out == text;
      } else {
        JoinSnoc(xs[..i], xs[i], sep);
        Regroup3(text, done, sep, item, tail);
      }
      out := out + item + tail;
      i := i + 1;
    }
    assert xs[..i] == xs;
  }

  lemma Regroup3(a: string, b: string, c: string, d: string, e: string)
    ensures a + b + c + d + e == a + (b + c + d) + e
  {
  }
}
