/**
 * Byte strings and the few string operations of Rust's `str` that the
 * SURT engine relies on: splitting on one delimiter, joining, ASCII case
 * mapping, decimal rendering and `from_str_radix` for unsigned integers.
 *
 * Rust strings are UTF-8 byte sequences, and every length, slice and
 * comparison in the engine is byte based, so text is modelled as `Bytes`.
 */
module Text {

  type Byte = b: int | 0 <= b < 256
  type Bytes = seq<Byte>

  datatype Option<T> = None | Some(value: T)

  // ---------------------------------------------------------------------
  // Literals
  // ---------------------------------------------------------------------

  /** The bytes of a literal; every literal used here is ASCII, where this is its UTF-8 encoding. */
  function Str(s: string): (b: Bytes)
    ensures |b| == |s|
  {
    seq(|s|, i requires 0 <= i < |s| => (s[i] as int) % 256)
  }

  const TAB: Byte := 9
  const LF: Byte := 10
  const CR: Byte := 13
  const SPACE: Byte := 32
  const HASH: Byte := 35
  const PERCENT: Byte := 37
  const AMP: Byte := 38
  const LPAREN: Byte := 40
  const RPAREN: Byte := 41
  const PLUS: Byte := 43
  const COMMA: Byte := 44
  const MINUS: Byte := 45
  const DOT: Byte := 46
  const SLASH: Byte := 47
  const ZERO: Byte := 48
  const COLON: Byte := 58
  const EQUALS: Byte := 61
  const QUESTION: Byte := 63
  const AT: Byte := 64

  // ---------------------------------------------------------------------
  // Byte classes (ASCII)
  // ---------------------------------------------------------------------

  predicate IsAscii(b: Byte) { b < 128 }
  predicate AllAscii(s: Bytes) { forall i | 0 <= i < |s| :: IsAscii(s[i]) }
  predicate IsDigit(b: Byte) { 48 <= b <= 57 }
  predicate IsUpper(b: Byte) { 65 <= b <= 90 }
  predicate IsLower(b: Byte) { 97 <= b <= 122 }
  predicate IsAlpha(b: Byte) { IsUpper(b) || IsLower(b) }
  predicate IsAlnum(b: Byte) { IsDigit(b) || IsAlpha(b) }
  predicate AllDigits(s: Bytes) { forall i | 0 <= i < |s| :: IsDigit(s[i]) }

  /** Value of a hexadecimal digit of either case; 16 for any other byte. */
  function DigitValue(b: Byte): (v: nat)
    ensures v <= 16
    ensures v < 10 <==> IsDigit(b)
  {
    if IsDigit(b) then b - 48
    else if 97 <= b <= 102 then b - 87
    else if 65 <= b <= 70 then b - 55
    else 16
  }

  predicate IsDigitIn(b: Byte, radix: nat) { DigitValue(b) < radix }
  predicate AllDigitsIn(s: Bytes, radix: nat) { forall i | 0 <= i < |s| :: IsDigitIn(s[i], radix) }

  /** `char::to_ascii_lowercase` on one byte. */
  function LowerByte(b: Byte): Byte
  {
    if IsUpper(b) then b + 32 else b
  }

  /** ASCII lower-casing of a whole string. */
  function Lower(s: Bytes): (r: Bytes)
    ensures |r| == |s|
    ensures forall i | 0 <= i < |s| :: !IsUpper(r[i]) && LowerByte(r[i]) == LowerByte(s[i])
    ensures AllAscii(s) ==> AllAscii(r)
  {
    seq(|s|, i requires 0 <= i < |s| => LowerByte(s[i]))
  }

  lemma LowerIdempotent(s: Bytes)
    ensures Lower(Lower(s)) == Lower(s)
  {
    assert forall i | 0 <= i < |s| :: Lower(Lower(s))[i] == Lower(s)[i];
  }

  lemma LowerConcat(a: Bytes, b: Bytes)
    ensures Lower(a + b) == Lower(a) + Lower(b)
  {
    assert forall i | 0 <= i < |a + b| :: Lower(a + b)[i] == (Lower(a) + Lower(b))[i];
  }

  // ---------------------------------------------------------------------
  // Searching, splitting and joining
  // ---------------------------------------------------------------------

  predicate StartsWith(s: Bytes, p: Bytes) { |p| <= |s| && s[..|p|] == p }
  predicate EndsWith(s: Bytes, p: Bytes) { |p| <= |s| && s[|s| - |p|..] == p }

  /** Concatenation regroups freely; stated once so that proofs need not rediscover it. */
  lemma AppendAssoc(a: Bytes, b: Bytes, c: Bytes)
    ensures a + b + c == a + (b + c)
  {
  }

  /** The same two facts for sequences of any element type, where the elements stay out of the proof. */
  lemma ConcatAssoc<T>(a: seq<T>, b: seq<T>, c: seq<T>)
    ensures a + b + c == a + (b + c)
  {
  }

  lemma ConcatEmpty<T>(e: seq<T>, x: seq<T>)
    requires e == []
    ensures e + x == x && x + e == x
  {
  }

  /** A prefix one longer is the prefix and the next element. */
  lemma TakeSnoc<T>(s: seq<T>, k: nat)
    requires k < |s|
    ensures s[..k + 1] == s[..k] + [s[k]]
  {
  }

  /** The tail of a sequence holds its elements but the first. */
  lemma MultisetTail<T>(s: seq<T>)
    requires |s| > 0
    ensures multiset(s[1..]) == multiset(s) - multiset{s[0]}
    ensures s[0] in multiset(s)
  {
    assert s == [s[0]] + s[1..];
  }

  /** The same element appended to two sequences with equal multisets came after equal multisets. */
  lemma MultisetSnocCancel<T>(a: seq<T>, b: seq<T>, x: T)
    requires multiset(a + [x]) == multiset(b + [x])
    ensures multiset(a) == multiset(b) && |a| == |b|
  {
    calc {
      multiset(a);
      multiset(a + [x]) - multiset{x};
      multiset(b + [x]) - multiset{x};
      multiset(b);
    }
    assert |a| == |multiset(a)| == |multiset(b)| == |b|;
  }

  /** A prefix is the shorter prefix followed by the slice between the two cuts. */
  lemma SliceSplit(s: Bytes, n: nat, m: nat)
    requires n <= m <= |s|
    ensures s[..m] == s[..n] + s[n..m]
  {
  }

  /** Index of the first occurrence of `d`. */
  function IndexOf(s: Bytes, d: Byte): (k: nat)
    requires d in s
    ensures k < |s| && s[k] == d && d !in s[..k]
  {
    if s[0] == d then 0
    else
      var k := 1 + IndexOf(s[1..], d);
      assert s[..k] == [s[0]] + s[1..][..k - 1];
      k
  }

  /** Rust's `str::split` on a single-byte delimiter: never empty. */
  function Split(s: Bytes, d: Byte): (parts: seq<Bytes>)
    ensures |parts| >= 1
    decreases |s|
  {
    if d !in s then [s]
    else
      var k := IndexOf(s, d);
      [s[..k]] + Split(s[k + 1..], d)
  }

  /** No piece of a split holds the separator. */
  lemma {:induction false} SplitPiecesFree(s: Bytes, d: Byte)
    ensures forall i | 0 <= i < |Split(s, d)| :: d !in Split(s, d)[i]
    decreases |s|
  {
    if d in s {
      var k := IndexOf(s, d);
      SplitPiecesFree(s[k + 1..], d);
    }
  }

  /** `[T]::join` with a single-byte separator. */
  function Join(parts: seq<Bytes>, d: Byte): Bytes
  {
    if |parts| == 0 then []
    else if |parts| == 1 then parts[0]
    else parts[0] + [d] + Join(parts[1..], d)
  }

  lemma JoinPair(a: Bytes, b: Bytes, d: Byte)
    ensures Join([a, b], d) == a + [d] + b
  {
    assert [a, b][1..] == [b];
  }

  lemma {:induction false} JoinSplit(s: Bytes, d: Byte)
    ensures Join(Split(s, d), d) == s
    decreases |s|
  {
    if d in s {
      var k := IndexOf(s, d);
      var rest := Split(s[k + 1..], d);
      JoinSplit(s[k + 1..], d);
      assert Split(s, d) == [s[..k]] + rest;
      assert ([s[..k]] + rest)[1..] == rest;
      assert s == s[..k] + [d] + s[k + 1..];
    }
  }

  /** Splitting a prefix free of `d`, followed by `d`. */
  lemma SplitCons(a: Bytes, b: Bytes, d: Byte)
    requires d !in a
    ensures Split(a + [d] + b, d) == [a] + Split(b, d)
  {
    var s := a + [d] + b;
    assert s[|a|] == d;
    var k := IndexOf(s, d);
    assert k == |a| by {
      assert d !in s[..|a|];
    }
    assert s[..k] == a;
    assert s[k + 1..] == b;
  }

  lemma {:induction false} SplitJoin(parts: seq<Bytes>, d: Byte)
    requires |parts| >= 1
    requires forall i | 0 <= i < |parts| :: d !in parts[i]
    ensures Split(Join(parts, d), d) == parts
  {
    if |parts| > 1 {
      SplitJoin(parts[1..], d);
      SplitCons(parts[0], Join(parts[1..], d), d);
    }
  }

  /** Joining two non-empty lists of pieces puts one separator between the joins. */
  lemma {:induction false} JoinAppend(ps: seq<Bytes>, qs: seq<Bytes>, d: Byte)
    requires |ps| >= 1 && |qs| >= 1
    ensures Join(ps + qs, d) == Join(ps, d) + [d] + Join(qs, d)
    decreases |ps|
  {
    if |ps| > 1 {
      JoinAppend(ps[1..], qs, d);
      assert (ps + qs)[1..] == ps[1..] + qs;
    } else {
      assert (ps + qs)[1..] == qs;
    }
  }

  /** Appending to a join extends its last piece. */
  lemma {:induction false} JoinExtendLast(ps: seq<Bytes>, a: Bytes, d: Byte)
    requires |ps| >= 1
    ensures Join(ps, d) + a == Join(ps[..|ps| - 1] + [ps[|ps| - 1] + a], d)
    decreases |ps|
  {
    if |ps| > 1 {
      JoinExtendLast(ps[1..], a, d);
      var qs := ps[..|ps| - 1] + [ps[|ps| - 1] + a];
      var tail := ps[1..][..|ps| - 2] + [ps[1..][|ps| - 2] + a];
      assert qs[0] == ps[0];
      assert qs[1..] == tail;
      calc {
        Join(ps, d) + a;
        (ps[0] + [d] + Join(ps[1..], d)) + a;
        ps[0] + [d] + (Join(ps[1..], d) + a);
        ps[0] + [d] + Join(tail, d);
        Join(qs, d);
      }
    }
  }

  /** Splitting at a separator between two texts splits each of them. */
  lemma SplitAppend(x: Bytes, y: Bytes, d: Byte)
    ensures Split(x + [d] + y, d) == Split(x, d) + Split(y, d)
  {
    var px, py := Split(x, d), Split(y, d);
    SplitPiecesFree(x, d);
    SplitPiecesFree(y, d);
    JoinSplit(x, d);
    JoinSplit(y, d);
    JoinAppend(px, py, d);
    SplitJoin(px + py, d);
  }

  /** Text without the separator, appended, extends the last piece. */
  lemma SplitExtendLast(x: Bytes, a: Bytes, d: Byte)
    requires d !in a
    ensures var ps := Split(x, d);
      Split(x + a, d) == ps[..|ps| - 1] + [ps[|ps| - 1] + a]
  {
    var ps := Split(x, d);
    var qs := ps[..|ps| - 1] + [ps[|ps| - 1] + a];
    SplitPiecesFree(x, d);
    JoinSplit(x, d);
    JoinExtendLast(ps, a, d);
    assert forall i | 0 <= i < |qs| :: d !in qs[i] by {
      forall i | 0 <= i < |qs| ensures d !in qs[i] {
        if i < |ps| - 1 { assert qs[i] == ps[i]; } else { assert d !in ps[|ps| - 1]; }
      }
    }
    SplitJoin(qs, d);
  }

  /** A join ends with its last piece. */
  lemma {:induction false} JoinEndsWithLast(ps: seq<Bytes>, d: Byte)
    requires |ps| >= 1
    ensures EndsWith(Join(ps, d), ps[|ps| - 1])
    decreases |ps|
  {
    if |ps| > 1 {
      JoinEndsWithLast(ps[1..], d);
    }
  }

  /** Pieces of a split hold no byte the whole text lacks. */
  lemma {:induction false} SplitPiecesWithout(s: Bytes, d: Byte, e: Byte)
    requires e !in s
    ensures forall i | 0 <= i < |Split(s, d)| :: e !in Split(s, d)[i]
    decreases |s|
  {
    if d in s {
      var k := IndexOf(s, d);
      assert e !in s[k + 1..];
      assert forall i | 0 <= i < k :: s[..k][i] == s[i];
      SplitPiecesWithout(s[k + 1..], d, e);
    }
  }

  /** Joining pieces that lack a byte, with another byte, gives a text that lacks it. */
  lemma {:induction false} JoinWithout(parts: seq<Bytes>, d: Byte, e: Byte)
    requires e != d
    requires forall i | 0 <= i < |parts| :: e !in parts[i]
    ensures e !in Join(parts, d)
  {
    if |parts| > 1 {
      JoinWithout(parts[1..], d, e);
    }
  }

  /** Number of occurrences of a byte. */
  function Count(s: Bytes, d: Byte): nat
  {
    if |s| == 0 then 0 else (if s[0] == d then 1 else 0) + Count(s[1..], d)
  }

  lemma {:induction false} CountConcat(a: Bytes, b: Bytes, d: Byte)
    ensures Count(a + b, d) == Count(a, d) + Count(b, d)
  {
    if |a| > 0 {
      assert (a + b)[1..] == a[1..] + b;
      CountConcat(a[1..], b, d);
    } else {
      assert a + b == b;
    }
  }

  lemma {:induction false} CountAbsent(a: Bytes, d: Byte)
    requires d !in a
    ensures Count(a, d) == 0
  {
    if |a| > 0 {
      assert d !in a[1..];
      CountAbsent(a[1..], d);
    }
  }

  /** Joining n parts that are free of the separator inserts n - 1 separators. */
  lemma {:induction false} CountJoin(parts: seq<Bytes>, d: Byte)
    requires |parts| >= 1
    requires forall i | 0 <= i < |parts| :: d !in parts[i]
    ensures Count(Join(parts, d), d) == |parts| - 1
  {
    CountAbsent(parts[0], d);
    if |parts| > 1 {
      CountJoin(parts[1..], d);
      CountConcat(parts[0] + [d], Join(parts[1..], d), d);
      CountConcat(parts[0], [d], d);
      assert Count([d], d) == 1 by {
        assert [d][1..] == [];
      }
    }
  }

  lemma {:induction false} CountSplit(s: Bytes, d: Byte)
    ensures |Split(s, d)| == Count(s, d) + 1
  {
    SplitPiecesFree(s, d);
    JoinSplit(s, d);
    CountJoin(Split(s, d), d);
  }

  /** The byte has an occurrence iff it is counted. */
  lemma {:induction false} CountPositive(s: Bytes, d: Byte)
    ensures d in s <==> Count(s, d) > 0
  {
    if |s| > 0 {
      CountPositive(s[1..], d);
      assert s == [s[0]] + s[1..];
    }
  }

  function Reverse<T>(s: seq<T>): (r: seq<T>)
    ensures |r| == |s|
    ensures forall i | 0 <= i < |s| :: r[i] == s[|s| - 1 - i]
  {
    seq(|s|, i requires 0 <= i < |s| => s[|s| - 1 - i])
  }

  lemma ReverseReverse<T>(s: seq<T>)
    ensures Reverse(Reverse(s)) == s
  {
  }

  /** Drops every occurrence of the bytes in `drop`, keeping the order of the rest. */
  function Remove(s: Bytes, drop: set<Byte>): (r: Bytes)
    ensures |r| <= |s|
    ensures forall i | 0 <= i < |r| :: r[i] !in drop && r[i] in s
  {
    if |s| == 0 then []
    else (if s[0] in drop then [] else [s[0]]) + Remove(s[1..], drop)
  }

  lemma {:induction false} RemoveNothing(s: Bytes, drop: set<Byte>)
    requires forall i | 0 <= i < |s| :: s[i] !in drop
    ensures Remove(s, drop) == s
  {
    if |s| > 0 {
      RemoveNothing(s[1..], drop);
    }
  }

  /** Dropping bytes from two texts put together drops them from each. */
  lemma {:induction false} RemoveConcat(a: Bytes, b: Bytes, drop: set<Byte>)
    ensures Remove(a + b, drop) == Remove(a, drop) + Remove(b, drop)
    decreases |a|
  {
    if |a| > 0 {
      RemoveConcat(a[1..], b, drop);
      assert (a + b)[1..] == a[1..] + b;
    } else {
      assert a + b == b;
    }
  }

  /** A text made only of dropped bytes leaves nothing. */
  lemma {:induction false} RemoveEverything(s: Bytes, drop: set<Byte>)
    requires forall i | 0 <= i < |s| :: s[i] in drop
    ensures Remove(s, drop) == []
  {
    if |s| > 0 {
      RemoveEverything(s[1..], drop);
    }
  }

  /** Cutting off a front made of dropped bytes changes nothing. */
  lemma {:induction false} RemoveDroppedFront(s: Bytes, i: nat, drop: set<Byte>)
    requires i <= |s| && forall k | 0 <= k < i :: s[k] in drop
    ensures Remove(s[i..], drop) == Remove(s, drop)
  {
    if i > 0 {
      RemoveDroppedFront(s[1..], i - 1, drop);
      assert s[1..][i - 1..] == s[i..];
    }
  }

  /** Cutting off a back made of dropped bytes changes nothing. */
  lemma RemoveDroppedBack(s: Bytes, j: nat, drop: set<Byte>)
    requires j <= |s| && forall k | j <= k < |s| :: s[k] in drop
    ensures Remove(s[..j], drop) == Remove(s, drop)
  {
    assert s == s[..j] + s[j..];
    RemoveConcat(s[..j], s[j..], drop);
    RemoveEverything(s[j..], drop);
  }

  // ---------------------------------------------------------------------
  // Numbers
  // ---------------------------------------------------------------------

  /** Value of a digit string in the given radix, most significant first. */
  function DigitsValue(s: Bytes, radix: nat): nat
    requires AllDigitsIn(s, radix)
  {
    if |s| == 0 then 0
    else DigitsValue(s[..|s| - 1], radix) * radix + DigitValue(s[|s| - 1])
  }

  /** `Display` of an unsigned integer: decimal digits, no leading zero. */
  function Decimal(n: nat): (r: Bytes)
    ensures 1 <= |r|
    ensures AllDigits(r) && AllDigitsIn(r, 10)
    ensures r[0] == ZERO <==> n == 0
    ensures n < 10 <==> |r| == 1
    ensures n < 1000 ==> |r| <= 3
    ensures DigitsValue(r, 10) == n
  {
    if n < 10 then [48 + n]
    else
      var p := Decimal(n / 10);
      var r := p + [48 + n % 10];
      assert r[..|r| - 1] == p;
      r
  }

  /**
   * `from_str_radix` for an unsigned type whose values are below `bound`:
   * an optional leading `+`, then at least one digit of the radix; a value
   * that does not fit is an error.
   */
  function ParseUnsigned(s: Bytes, radix: nat, bound: nat): (r: Option<nat>)
    requires 2 <= radix <= 16
    ensures r.Some? ==> r.value < bound
    ensures r.Some? ==> 0 < |s| && forall i | 0 <= i < |s| :: s[i] == PLUS || IsDigitIn(s[i], radix)
  {
    var digits := if |s| > 0 && s[0] == PLUS then s[1..] else s;
    if |digits| == 0 || !AllDigitsIn(digits, radix) then None
    else
      var v := DigitsValue(digits, radix);
      if v < bound then Some(v) else None
  }

  /** Decimal rendering and parsing are inverse for every value that fits. */
  lemma ParseDecimal(n: nat, bound: nat)
    requires n < bound
    ensures ParseUnsigned(Decimal(n), 10, bound) == Some(n)
  {
  }

  /** A string holding a byte that is neither `+` nor a digit never parses. */
  lemma ParseRejects(s: Bytes, radix: nat, bound: nat, i: nat)
    requires 2 <= radix <= 16
    requires i < |s| && s[i] != PLUS && !IsDigitIn(s[i], radix)
    ensures ParseUnsigned(s, radix, bound) == None
  {
  }
}
