/**
  Text helpers that behave exactly like the Python built-ins the backend uses:
  `sep.join(parts)` and `str(n)` for a non-negative integer.
 */
module Strings {

  /** Python's `sep.join(parts)`. */
  function Join(parts: seq<string>, sep: string): string
  {
    if |parts| == 0 then ""
    else if |parts| == 1 then parts[0]
    else parts[0] + sep + Join(parts[1..], sep)
  }

  /** Where `parts[i]` starts inside `Join(parts, sep)`. */
  function Offset(parts: seq<string>, sep: string, i: nat): nat
    requires i <= |parts|
  {
    if i == 0 then 0 else |parts[0]| + |sep| + Offset(parts[1..], sep, i - 1)
  }

  /** The joined string ends right after its last part: parts and separators tile it. */
  lemma {:induction false} JoinEnd(parts: seq<string>, sep: string)
    requires parts != []
    ensures |Join(parts, sep)| == Offset(parts, sep, |parts| - 1) + |parts[|parts| - 1]|
  {
    if |parts| > 1 {
      JoinEnd(parts[1..], sep);
      assert parts[1..][|parts| - 2] == parts[|parts| - 1];
    }
  }

  /** A slice of `y` taken after a prefix `x`. */
  lemma SliceAfterPrefix(x: string, y: string, i: nat, j: nat)
    requires i <= j <= |y|
    ensures (x + y)[|x| + i..|x| + j] == y[i..j]
  {
  }

  /**
    Every part appears verbatim in the joined string: part `i` sits at
    `Offset(parts, sep, i)`.
   */
  lemma {:induction false} JoinPart(parts: seq<string>, sep: string, i: nat)
    requires i < |parts|
    ensures Offset(parts, sep, i) + |parts[i]| <= |Join(parts, sep)|
    ensures Join(parts, sep)[Offset(parts, sep, i)..Offset(parts, sep, i) + |parts[i]|] == parts[i]
  {
    if i == 0 {
      JoinFirst(parts, sep);
    } else {
      JoinPart(parts[1..], sep, i - 1);
      JoinPartLater(parts, sep, i);
    }
  }

  lemma JoinFirst(parts: seq<string>, sep: string)
    requires 0 < |parts|
    ensures |parts[0]| <= |Join(parts, sep)| && Join(parts, sep)[..|parts[0]|] == parts[0]
  {
    if |parts| > 1 {
      var whole := Join(parts, sep);
      assert whole == parts[0] + (sep + Join(parts[1..], sep));
    }
  }

  /** The inductive step of `JoinPart`: part `i` is part `i - 1` of the tail. */
  lemma JoinPartLater(parts: seq<string>, sep: string, i: nat)
    requires 0 < i < |parts|
    requires var o := Offset(parts[1..], sep, i - 1);
      o + |parts[i]| <= |Join(parts[1..], sep)| &&
      Join(parts[1..], sep)[o..o + |parts[i]|] == parts[i]
    ensures Offset(parts, sep, i) + |parts[i]| <= |Join(parts, sep)|
    ensures Join(parts, sep)[Offset(parts, sep, i)..Offset(parts, sep, i) + |parts[i]|] == parts[i]
  {
    var head := parts[0] + sep;
    var rest := Join(parts[1..], sep);
    var o := Offset(parts[1..], sep, i - 1);
    assert Join(parts, sep) == head + rest;
    assert Offset(parts, sep, i) == |head| + o;
    SliceAfterPrefix(head, rest, o, o + |parts[i]|);
  }

  /**
    Between part `i` and part `i + 1` the joined string holds exactly `sep`, so
    the parts keep their order.
   */
  lemma {:induction false} JoinSeparator(parts: seq<string>, sep: string, i: nat)
    requires i + 1 < |parts|
    ensures Offset(parts, sep, i + 1) == Offset(parts, sep, i) + |parts[i]| + |sep|
    ensures Offset(parts, sep, i + 1) <= |Join(parts, sep)|
    ensures Join(parts, sep)[Offset(parts, sep, i) + |parts[i]|..Offset(parts, sep, i + 1)] == sep
  {
    if i == 0 {
      JoinFirstSeparator(parts, sep);
    } else {
      JoinSeparator(parts[1..], sep, i - 1);
      JoinSeparatorLater(parts, sep, i);
    }
  }

  lemma JoinFirstSeparator(parts: seq<string>, sep: string)
    requires 1 < |parts|
    ensures |parts[0]| + |sep| <= |Join(parts, sep)|
    ensures Join(parts, sep)[|parts[0]|..|parts[0]| + |sep|] == sep
  {
    var whole := Join(parts, sep);
    assert whole == parts[0] + sep + Join(parts[1..], sep);
  }

  /** The inductive step of `JoinSeparator`. */
  lemma JoinSeparatorLater(parts: seq<string>, sep: string, i: nat)
    requires 0 < i && i + 1 < |parts|
    requires var o := Offset(parts[1..], sep, i - 1);
      var o' := Offset(parts[1..], sep, i);
      o' == o + |parts[i]| + |sep| <= |Join(parts[1..], sep)| &&
      Join(parts[1..], sep)[o + |parts[i]|..o'] == sep
    ensures Offset(parts, sep, i + 1) == Offset(parts, sep, i) + |parts[i]| + |sep|
    ensures Offset(parts, sep, i + 1) <= |Join(parts, sep)|
    ensures Join(parts, sep)[Offset(parts, sep, i) + |parts[i]|..Offset(parts, sep, i + 1)] == sep
  {
    var head := parts[0] + sep;
    var rest := Join(parts[1..], sep);
    var o := Offset(parts[1..], sep, i - 1);
    var o' := Offset(parts[1..], sep, i);
    assert Join(parts, sep) == head + rest;
    assert Offset(parts, sep, i) == |head| + o;
    assert Offset(parts, sep, i + 1) == |head| + o';
    SliceAfterPrefix(head, rest, o + |parts[i]|, o');
  }

  /** Index of the first `c` in `s`. */
  function IndexOf(s: string, c: char): (i: nat)
    requires c in s
    ensures i < |s| && s[i] == c && c !in s[..i]
  {
    if s[0] == c then 0
    else
      assert c in s[1..];
      var i := 1 + IndexOf(s[1..], c);
      assert s[..i] == [s[0]] + s[1..][..i - 1];
      i
  }

  lemma {:induction false} IndexOfAfter(x: string, r: string, c: char)
    requires c !in x
    ensures IndexOf(x + [c] + r, c) == |x|
  {
    if x != [] {
      assert (x + [c] + r)[1..] == x[1..] + [c] + r;
      IndexOfAfter(x[1..], r, c);
    }
  }

  /**
    Cuts `s` at every `c`. It undoes `Join` on parts that are non-empty and free
    of `c`, which is all that is needed of it here.
   */
  function Split(s: string, c: char): seq<string>
    decreases |s|
  {
    if s == [] then []
    else if c !in s then [s]
    else
      var i := IndexOf(s, c);
      [s[..i]] + Split(s[i + 1..], c)
  }

  /** Joining with a one-character separator and splitting on it is a round trip. */
  lemma {:induction false} SplitJoin(parts: seq<string>, c: char)
    requires forall x :: x in parts ==> x != [] && c !in x
    ensures Split(Join(parts, [c]), c) == parts
  {
    if |parts| == 1 {
      assert parts[0] in parts;
    } else if |parts| > 1 {
      var x, rest := parts[0], Join(parts[1..], [c]);
      assert x in parts;
      assert Join(parts, [c]) == x + [c] + rest;
      IndexOfAfter(x, rest, c);
      assert (x + [c] + rest)[..|x|] == x;
      assert (x + [c] + rest)[|x| + 1..] == rest;
      assert forall y :: y in parts[1..] ==> y in parts;
      SplitJoin(parts[1..], c);
    }
  }

  /**
    Joining with a one-character separator is injective on non-empty parts that
    do not contain the separator.
   */
  lemma JoinInjective(a: seq<string>, b: seq<string>, c: char)
    requires forall x :: x in a ==> x != [] && c !in x
    requires forall y :: y in b ==> y != [] && c !in y
    requires Join(a, [c]) == Join(b, [c])
    ensures a == b
  {
    SplitJoin(a, c);
    SplitJoin(b, c);
  }

  /** Index of the last `c` in `s`. */
  function LastIndexOf(s: string, c: char): (i: nat)
    requires c in s
    ensures i < |s| && s[i] == c && c !in s[i + 1..]
  {
    if s[|s| - 1] == c then |s| - 1
    else
      assert s == s[..|s| - 1] + [s[|s| - 1]];
      assert c in s[..|s| - 1];
      var i := LastIndexOf(s[..|s| - 1], c);
      assert s[i + 1..] == s[..|s| - 1][i + 1..] + [s[|s| - 1]];
      i
  }

  lemma {:induction false} LastIndexOfBefore(x: string, d: string, c: char)
    requires c !in d
    ensures LastIndexOf(x + [c] + d, c) == |x|
  {
    if d != [] {
      var d' := d[..|d| - 1];
      assert x + [c] + d == (x + [c] + d') + [d[|d| - 1]];
      assert (x + [c] + d)[..|x + [c] + d| - 1] == x + [c] + d';
      assert c !in d' by { assert forall k :: 0 <= k < |d'| ==> d'[k] == d[k]; }
      LastIndexOfBefore(x, d', c);
    }
  }

  predicate IsDigit(ch: char) { '0' <= ch <= '9' }

  function DigitChar(d: nat): (ch: char)
    requires d < 10
    ensures IsDigit(ch)
  {
    (48 + d) as char
  }

  function DigitValue(ch: char): nat
    requires IsDigit(ch)
  {
    (ch as int) - 48
  }

  /** Python's `str(n)` for a non-negative integer: decimal digits, no leading zero. */
  function DecimalString(n: nat): (s: string)
    ensures s != []
    ensures forall ch :: ch in s ==> IsDigit(ch)
  {
    if n < 10 then [DigitChar(n)] else DecimalString(n / 10) + [DigitChar(n % 10)]
  }

  /** The value of a string of decimal digits (0 for the empty string); the partner of `DecimalString`. */
  function ParseDecimal(s: string): nat
    requires forall ch :: ch in s ==> IsDigit(ch)
  {
    if s == [] then 0
    else
      var last := s[|s| - 1];
      assert last in s;
      ParseDecimal(s[..|s| - 1]) * 10 + DigitValue(last)
  }

  /** `int(str(n)) == n`. */
  lemma {:induction false} ParseDecimalString(n: nat)
    ensures ParseDecimal(DecimalString(n)) == n
  {
    var s := DecimalString(n);
    if n >= 10 {
      assert s[..|s| - 1] == DecimalString(n / 10);
      ParseDecimalString(n / 10);
    }
  }

  /** Different sizes print differently. */
  lemma DecimalStringInjective(m: nat, n: nat)
    requires DecimalString(m) == DecimalString(n)
    ensures m == n
  {
    ParseDecimalString(m);
    ParseDecimalString(n);
  }
}
