/**
 * The Internet Archive pass: option-gated lower-casing, removal of a
 * `www<digits>.` prefix, stripping of credentials and default ports,
 * session-id removal, trailing-slash removal and alphabetical reordering
 * of the query's `&`-separated arguments.
 */
module Ia {
  import opened Text
  import opened Errors
  import opened Options
  import Handy
  import RegexTransformer
  import UrlEncoding

  // ---------------------------------------------------------------------
  // Ordering of query arguments
  // ---------------------------------------------------------------------

  /** `Ord for str`: bytewise lexicographic order, strict. */
  predicate BytesBefore(a: Bytes, b: Bytes)
    decreases |a|
  {
    |b| > 0 && (|a| == 0 || a[0] < b[0] || (a[0] == b[0] && BytesBefore(a[1..], b[1..])))
  }

  lemma {:induction false} BytesBeforeIrreflexive(a: Bytes)
    ensures !BytesBefore(a, a)
    decreases |a|
  {
    if |a| > 0 {
      BytesBeforeIrreflexive(a[1..]);
    }
  }

  lemma {:induction false} BytesBeforeTransitive(a: Bytes, b: Bytes, c: Bytes)
    requires BytesBefore(a, b) && BytesBefore(b, c)
    ensures BytesBefore(a, c)
    decreases |a|
  {
    if |a| > 0 && a[0] == b[0] && b[0] == c[0] {
      BytesBeforeTransitive(a[1..], b[1..], c[1..]);
    }
  }

  lemma {:induction false} BytesBeforeTotal(a: Bytes, b: Bytes)
    ensures a == b || BytesBefore(a, b) || BytesBefore(b, a)
    decreases |a|
  {
    if |a| > 0 && |b| > 0 && a[0] == b[0] {
      BytesBeforeTotal(a[1..], b[1..]);
      if a[1..] == b[1..] {
        assert a == [a[0]] + a[1..] && b == [b[0]] + b[1..];
      }
    }
  }

  lemma {:induction false} ProperPrefixBefore(a: Bytes, b: Bytes)
    requires |a| < |b| && b[..|a|] == a
    ensures BytesBefore(a, b)
    decreases |a|
  {
    if |a| > 0 {
      assert b[1..][..|a| - 1] == a[1..];
      ProperPrefixBefore(a[1..], b[1..]);
    }
  }

  lemma {:induction false} FirstDifferenceBefore(a: Bytes, b: Bytes, k: nat)
    requires k < |a| && k < |b| && a[..k] == b[..k] && a[k] < b[k]
    ensures BytesBefore(a, b)
    decreases k
  {
    if k > 0 {
      assert a[0] == a[..k][0] && b[0] == b[..k][0];
      assert a[1..][..k - 1] == b[1..][..k - 1];
      FirstDifferenceBefore(a[1..], b[1..], k - 1);
    }
  }

  lemma {:induction false} BeforeWitness(a: Bytes, b: Bytes)
    requires BytesBefore(a, b)
    ensures (|a| < |b| && b[..|a|] == a)
      || (exists k | 0 <= k < |a| && k < |b| :: a[..k] == b[..k] && a[k] < b[k])
    decreases |a|
  {
    if |a| > 0 {
      if a[0] < b[0] {
        assert a[..0] == b[..0];
      } else {
        BeforeWitness(a[1..], b[1..]);
        if |a| - 1 < |b| - 1 && b[1..][..|a| - 1] == a[1..] {
          assert b[..|a|] == [b[0]] + b[1..][..|a| - 1];
        } else {
          var k :| 0 <= k < |a| - 1 && k < |b| - 1 && a[1..][..k] == b[1..][..k] && a[1..][k] < b[1..][k];
          assert a[..k + 1] == [a[0]] + a[1..][..k];
          assert b[..k + 1] == [b[0]] + b[1..][..k];
        }
      }
    }
  }

  /**
   * The order agrees with its textbook reading: `a` is a proper prefix of
   * `b`, or the two agree up to a first difference where `a` is smaller.
   */
  lemma BytesBeforeMeaning(a: Bytes, b: Bytes)
    ensures BytesBefore(a, b) <==>
      (|a| < |b| && b[..|a|] == a)
      || (exists k | 0 <= k < |a| && k < |b| :: a[..k] == b[..k] && a[k] < b[k])
  {
    if BytesBefore(a, b) {
      BeforeWitness(a, b);
    } else if |a| < |b| && b[..|a|] == a {
      ProperPrefixBefore(a, b);
    } else if exists k | 0 <= k < |a| && k < |b| :: a[..k] == b[..k] && a[k] < b[k] {
      var k :| 0 <= k < |a| && k < |b| && a[..k] == b[..k] && a[k] < b[k];
      FirstDifferenceBefore(a, b, k);
    }
  }

  /** One argument split at its first `=`: `[key]` or `[key, value]`. */
  type Token = seq<Bytes>

  /** `Ord for Vec<&str>`: lexicographic over the parts. */
  predicate TokenBefore(x: Token, y: Token)
    decreases |x|
  {
    |y| > 0 && (|x| == 0 || BytesBefore(x[0], y[0]) || (x[0] == y[0] && TokenBefore(x[1..], y[1..])))
  }

  predicate TokenLe(x: Token, y: Token)
  {
    x == y || TokenBefore(x, y)
  }

  lemma {:induction false} TokenBeforeIrreflexive(x: Token)
    ensures !TokenBefore(x, x)
    decreases |x|
  {
    if |x| > 0 {
      BytesBeforeIrreflexive(x[0]);
      TokenBeforeIrreflexive(x[1..]);
    }
  }

  lemma {:induction false} TokenBeforeTransitive(x: Token, y: Token, z: Token)
    requires TokenBefore(x, y) && TokenBefore(y, z)
    ensures TokenBefore(x, z)
    decreases |x|
  {
    if |x| > 0 {
      if BytesBefore(x[0], y[0]) && BytesBefore(y[0], z[0]) {
        BytesBeforeTransitive(x[0], y[0], z[0]);
      } else if x[0] == y[0] && y[0] == z[0] {
        TokenBeforeTransitive(x[1..], y[1..], z[1..]);
      }
    }
  }

  lemma {:induction false} TokenBeforeTotal(x: Token, y: Token)
    ensures x == y || TokenBefore(x, y) || TokenBefore(y, x)
    decreases |x|
  {
    if |x| > 0 && |y| > 0 {
      BytesBeforeTotal(x[0], y[0]);
      if x[0] == y[0] {
        TokenBeforeTotal(x[1..], y[1..]);
        if x[1..] == y[1..] {
          assert x == [x[0]] + x[1..] && y == [y[0]] + y[1..];
        }
      }
    }
  }

  /** `TokenLe` is a total order. */
  lemma TokenLeOrder(x: Token, y: Token, z: Token)
    ensures TokenLe(x, y) || TokenLe(y, x)
    ensures TokenLe(x, y) && TokenLe(y, x) ==> x == y
    ensures TokenLe(x, y) && TokenLe(y, z) ==> TokenLe(x, z)
  {
    TokenBeforeTotal(x, y);
    if TokenBefore(x, y) && TokenBefore(y, x) {
      TokenBeforeTransitive(x, y, x);
      TokenBeforeIrreflexive(x);
    }
    if TokenBefore(x, y) && TokenBefore(y, z) {
      TokenBeforeTransitive(x, y, z);
    }
  }

  // ---------------------------------------------------------------------
  // Sorting
  // ---------------------------------------------------------------------

  predicate Sorted(s: seq<Token>)
  {
    forall i, j | 0 <= i < j < |s| :: TokenLe(s[i], s[j])
  }

  /** Placing one token before the first token it does not exceed. */
  function Insert(t: Token, s: seq<Token>): (r: seq<Token>)
    ensures |r| == |s| + 1
    ensures multiset(r) == multiset(s) + multiset{t}
  {
    if |s| == 0 then [t]
    else if TokenLe(t, s[0]) then [t] + s
    else
      assert s == [s[0]] + s[1..];
      [s[0]] + Insert(t, s[1..])
  }

  /**
   * `slice::sort` on the argument vectors, computed by insertion; being
   * sorted and a permutation of its input, it is the only result a
   * correct sort can give (`SortedPermutationUnique`).
   */
  function SortTokens(s: seq<Token>): (r: seq<Token>)
    ensures |r| == |s|
    ensures multiset(r) == multiset(s)
  {
    if |s| == 0 then []
    else
      assert s == [s[0]] + s[1..];
      Insert(s[0], SortTokens(s[1..]))
  }

  lemma {:induction false} InsertSorted(t: Token, s: seq<Token>)
    requires Sorted(s)
    ensures Sorted(Insert(t, s))
  {
    if |s| > 0 {
      if TokenLe(t, s[0]) {
        forall j | 0 <= j < |s| ensures TokenLe(t, s[j]) {
          TokenLeOrder(t, s[0], s[j]);
        }
      } else {
        TokenLeOrder(t, s[0], s[0]);
        InsertSorted(t, s[1..]);
        var rest := Insert(t, s[1..]);
        forall x | x in rest ensures TokenLe(s[0], x) {
          assert x in multiset(rest);
          if x != t {
            assert x in s[1..];
          }
        }
        var r := [s[0]] + rest;
        forall i, j | 0 <= i < j < |r| ensures TokenLe(r[i], r[j]) {
          if i > 0 {
            assert r[i] == rest[i - 1] && r[j] == rest[j - 1];
          } else {
            assert r[j] in rest;
          }
        }
      }
    }
  }

  lemma {:induction false} SortTokensSorted(s: seq<Token>)
    ensures Sorted(SortTokens(s))
  {
    if |s| > 0 {
      SortTokensSorted(s[1..]);
      InsertSorted(s[0], SortTokens(s[1..]));
    }
  }

  /** Sorting sorted input changes nothing. */
  lemma {:induction false} SortTokensOfSorted(s: seq<Token>)
    requires Sorted(s)
    ensures SortTokens(s) == s
  {
    if |s| > 0 {
      SortTokensOfSorted(s[1..]);
      assert SortTokens(s[1..]) == s[1..];
      if |s| > 1 {
        assert TokenLe(s[0], s[1]);
      }
      assert [s[0]] + s[1..] == s;
    }
  }

  lemma SortedTail(s: seq<Token>)
    requires |s| > 0 && Sorted(s)
    ensures Sorted(s[1..])
    ensures forall x | x in s :: TokenLe(s[0], x)
  {
    forall k, l | 0 <= k < l < |s| - 1 ensures TokenLe(s[1..][k], s[1..][l]) {
      assert s[1..][k] == s[k + 1] && s[1..][l] == s[l + 1];
    }
    forall x | x in s ensures TokenLe(s[0], x) {
      var j :| 0 <= j < |s| && s[j] == x;
      if j > 0 {
        assert TokenLe(s[0], s[j]);
      }
    }
  }

  /** Two sorted sequences with the same elements are equal: every correct sort agrees. */
  lemma {:induction false} SortedPermutationUnique(a: seq<Token>, b: seq<Token>)
    requires Sorted(a) && Sorted(b) && multiset(a) == multiset(b)
    ensures a == b
    decreases |a|
  {
    assert |a| == |multiset(a)| == |b|;
    if |a| > 0 {
      MultisetTail(a);
      MultisetTail(b);
      assert a[0] in b && b[0] in a;
      SortedTail(a);
      SortedTail(b);
      TokenLeOrder(a[0], b[0], a[0]);
      SortedPermutationUnique(a[1..], b[1..]);
      assert a == [a[0]] + a[1..] && b == [b[0]] + b[1..];
    }
  }

  // ---------------------------------------------------------------------
  // Arguments and their text
  // ---------------------------------------------------------------------

  /** `arg.splitn(2, '=')`: the key before the first `=`, and the rest when there is one. */
  function TokenOf(arg: Bytes): (t: Token)
  {
    if EQUALS in arg then
      var k := IndexOf(arg, EQUALS);
      [arg[..k], arg[k + 1..]]
    else [arg]
  }

  /** The text an argument vector stands for: the key, or key `=` value. */
  function TokenText(t: Token): (r: Bytes)
  {
    if |t| == 0 then []
    else if |t| == 1 then t[0]
    else t[0] + [EQUALS] + t[1]
  }

  /** What `splitn(2, '=')` can give for an argument without `&`. */
  predicate WellFormed(t: Token)
  {
    (|t| == 1 || |t| == 2)
    && EQUALS !in t[0]
    && forall i | 0 <= i < |t| :: AMP !in t[i]
  }

  /** Splitting an argument at its first `=` and writing it back is the identity. */
  lemma TokenRoundTrip(arg: Bytes)
    ensures TokenText(TokenOf(arg)) == arg
    ensures AMP !in arg ==> WellFormed(TokenOf(arg))
  {
    if EQUALS in arg {
      var k := IndexOf(arg, EQUALS);
      assert arg == arg[..k] + [EQUALS] + arg[k + 1..];
      if AMP !in arg {
        assert forall b | b in arg[k + 1..] :: b in arg;
      }
    }
  }

  /** A well-formed vector is read back from its text. */
  lemma TextRoundTrip(t: Token)
    requires WellFormed(t)
    ensures TokenOf(TokenText(t)) == t
    ensures AMP !in TokenText(t)
  {
    if |t| == 2 {
      var s := t[0] + [EQUALS] + t[1];
      assert s[|t[0]|] == EQUALS;
      var k := IndexOf(s, EQUALS);
      assert k == |t[0]|;
      assert s[..k] == t[0] && s[k + 1..] == t[1];
    }
  }

  function Tokens(args: seq<Bytes>): (ts: seq<Token>)
    ensures |ts| == |args|
    ensures forall i | 0 <= i < |args| :: ts[i] == TokenOf(args[i])
  {
    if |args| == 0 then [] else [TokenOf(args[0])] + Tokens(args[1..])
  }

  function Texts(ts: seq<Token>): (r: seq<Bytes>)
    ensures |r| == |ts|
    ensures forall i | 0 <= i < |ts| :: r[i] == TokenText(ts[i])
  {
    if |ts| == 0 then [] else [TokenText(ts[0])] + Texts(ts[1..])
  }

  /** One pass of the output loop: the argument's text and `&`, nothing for an empty vector. */
  function ItemText(t: Token): Bytes
  {
    if |t| == 0 then [] else TokenText(t) + [AMP]
  }

  /** The output the loop has built after the given vectors. */
  function Written(ts: seq<Token>): Bytes
  {
    if |ts| == 0 then [] else ItemText(ts[0]) + Written(ts[1..])
  }

  lemma {:induction false} WrittenAppend(ts: seq<Token>, t: Token)
    ensures Written(ts + [t]) == Written(ts) + ItemText(t)
    decreases |ts|
  {
    if |ts| == 0 {
      assert ts + [t] == [t];
      ConcatEmpty(Written([]), ItemText(t));
    } else {
      WrittenAppend(ts[1..], t);
      assert (ts + [t])[1..] == ts[1..] + [t];
      AppendAssoc(ItemText(ts[0]), Written(ts[1..]), ItemText(t));
    }
  }

  /** The loop's output is the join of the arguments followed by one `&`. */
  lemma {:induction false} WrittenJoin(ts: seq<Token>)
    requires |ts| >= 1
    requires forall i | 0 <= i < |ts| :: |ts[i]| > 0
    ensures Written(ts) == Join(Texts(ts), AMP) + [AMP]
    decreases |ts|
  {
    if |ts| == 1 {
      assert Written(ts[1..]) == [];
    } else {
      WrittenJoin(ts[1..]);
      assert Texts(ts)[1..] == Texts(ts[1..]);
      AppendAssoc(TokenText(ts[0]) + [AMP], Join(Texts(ts[1..]), AMP), [AMP]);
    }
  }

  /** Inserting one vector adds its text to the texts, as a multiset. */
  lemma {:induction false} InsertTexts(t: Token, s: seq<Token>)
    ensures multiset(Texts(Insert(t, s))) == multiset(Texts(s)) + multiset{TokenText(t)}
  {
    if |s| > 0 && !TokenLe(t, s[0]) {
      InsertTexts(t, s[1..]);
      assert Texts(Insert(t, s)) == [TokenText(s[0])] + Texts(Insert(t, s[1..]));
      assert Texts(s) == [TokenText(s[0])] + Texts(s[1..]);
    }
  }

  /** Inserting one vector adds its item's bytes to the output, as a multiset. */
  lemma {:induction false} InsertWritten(t: Token, s: seq<Token>)
    ensures multiset(Written(Insert(t, s))) == multiset(Written(s)) + multiset(ItemText(t))
  {
    if |s| > 0 && !TokenLe(t, s[0]) {
      InsertWritten(t, s[1..]);
      var rest := Insert(t, s[1..]);
      assert Insert(t, s) == [s[0]] + rest;
      assert Written(Insert(t, s)) == ItemText(s[0]) + Written(rest);
    }
  }

  /** Sorting permutes the texts. */
  lemma {:induction false} SortTexts(s: seq<Token>)
    ensures multiset(Texts(SortTokens(s))) == multiset(Texts(s))
  {
    if |s| > 0 {
      SortTexts(s[1..]);
      InsertTexts(s[0], SortTokens(s[1..]));
      assert Texts(s) == [TokenText(s[0])] + Texts(s[1..]);
    }
  }

  /** Sorting permutes the bytes of the output. */
  lemma {:induction false} SortWritten(s: seq<Token>)
    ensures multiset(Written(SortTokens(s))) == multiset(Written(s))
  {
    if |s| > 0 {
      SortWritten(s[1..]);
      InsertWritten(s[0], SortTokens(s[1..]));
    }
  }

  /** Texts of the tokens of `&`-free arguments are the arguments. */
  lemma TextsOfTokens(args: seq<Bytes>)
    requires forall i | 0 <= i < |args| :: AMP !in args[i]
    ensures Texts(Tokens(args)) == args
    ensures forall i | 0 <= i < |args| :: WellFormed(Tokens(args)[i])
  {
    forall i | 0 <= i < |args| ensures TokenText(TokenOf(args[i])) == args[i] && WellFormed(TokenOf(args[i])) {
      TokenRoundTrip(args[i]);
    }
  }

  /** Tokens of the texts of well-formed vectors are the vectors. */
  lemma TokensOfTexts(ts: seq<Token>)
    requires forall i | 0 <= i < |ts| :: WellFormed(ts[i])
    ensures Tokens(Texts(ts)) == ts
    ensures forall i | 0 <= i < |ts| :: AMP !in Texts(ts)[i]
  {
    forall i | 0 <= i < |ts| ensures TokenOf(TokenText(ts[i])) == ts[i] && AMP !in TokenText(ts[i]) {
      TextRoundTrip(ts[i]);
    }
  }

  /** Every vector of a sorted sequence of well-formed vectors is well-formed. */
  lemma SortKeepsWellFormed(ts: seq<Token>)
    requires forall i | 0 <= i < |ts| :: WellFormed(ts[i])
    ensures forall i | 0 <= i < |SortTokens(ts)| :: WellFormed(SortTokens(ts)[i])
  {
    var r := SortTokens(ts);
    forall i | 0 <= i < |r| ensures WellFormed(r[i]) {
      assert r[i] in multiset(r);
      assert r[i] in multiset(ts);
      var j :| 0 <= j < |ts| && ts[j] == r[i];
    }
  }

  // ---------------------------------------------------------------------
  // alpha_reorder_query
  // ---------------------------------------------------------------------

  /** The argument vectors of a query, sorted. */
  function SortedArguments(input: Bytes): seq<Token>
  {
    SortTokens(Tokens(Split(input, AMP)))
  }

  /**
   * `alpha_reorder_query`: a query of at most one byte is returned as it
   * is; otherwise its `&`-separated arguments are put in the order of
   * their `[key]` / `[key, value]` vectors and joined again.
   */
  function AlphaReordered(input: Bytes): (r: Bytes)
    ensures multiset(r) == multiset(input)
    ensures |r| == |input|
  {
    if |input| <= 1 then input
    else
      SortedJoinBytes(input);
      Join(Texts(SortedArguments(input)), AMP)
  }

  /** The facts about the arguments of any query that the reordering relies on. */
  lemma ArgumentFacts(input: Bytes)
    ensures Texts(Tokens(Split(input, AMP))) == Split(input, AMP)
    ensures forall i | 0 <= i < |Split(input, AMP)| :: WellFormed(Tokens(Split(input, AMP))[i])
    ensures forall i | 0 <= i < |SortedArguments(input)| :: WellFormed(SortedArguments(input)[i])
    ensures Sorted(SortedArguments(input))
  {
    var args := Split(input, AMP);
    SplitPiecesFree(input, AMP);
    TextsOfTokens(args);
    SortKeepsWellFormed(Tokens(args));
    SortTokensSorted(Tokens(args));
  }

  /** The arguments of the reordered query are the texts of the sorted vectors, and read back as them. */
  lemma ReorderedPieces(input: Bytes)
    requires |input| > 1
    ensures Split(AlphaReordered(input), AMP) == Texts(SortedArguments(input))
    ensures Tokens(Split(AlphaReordered(input), AMP)) == SortedArguments(input)
  {
    var sorted := SortedArguments(input);
    ArgumentFacts(input);
    TokensOfTexts(sorted);
    SplitJoin(Texts(sorted), AMP);
  }

  /** Sorting the arguments and joining them again permutes the query's bytes, so keeps its length. */
  lemma SortedJoinBytes(input: Bytes)
    ensures multiset(Join(Texts(SortedArguments(input)), AMP)) == multiset(input)
    ensures |Join(Texts(SortedArguments(input)), AMP)| == |input|
  {
    var tokens := Tokens(Split(input, AMP));
    var r := Join(Texts(SortedArguments(input)), AMP);
    ArgumentFacts(input);
    SortWritten(tokens);
    WrittenJoin(SortedArguments(input));
    WrittenJoin(tokens);
    JoinSplit(input, AMP);
    assert Written(tokens) == input + [AMP];
    assert Written(SortedArguments(input)) == r + [AMP];
    MultisetSnocCancel(r, input, AMP);
  }

  /**
   * The reordered query is a permutation of the arguments whose argument
   * vectors are sorted.
   */
  lemma AlphaReorderedPermutes(input: Bytes)
    requires |input| > 1
    ensures multiset(Split(AlphaReordered(input), AMP)) == multiset(Split(input, AMP))
    ensures Sorted(Tokens(Split(AlphaReordered(input), AMP)))
  {
    ReorderedPieces(input);
    ArgumentFacts(input);
    SortTexts(Tokens(Split(input, AMP)));
  }

  /** Reordering a reordered query changes nothing. */
  lemma AlphaReorderedIdempotent(input: Bytes)
    ensures AlphaReordered(AlphaReordered(input)) == AlphaReordered(input)
  {
    var r := AlphaReordered(input);
    if |input| > 1 && |r| > 1 {
      ReorderedPieces(input);
      ArgumentFacts(input);
      SortTokensOfSorted(SortedArguments(input));
    }
  }

  /** Two vectors out of order are swapped. */
  lemma SortPair(x: Token, y: Token)
    requires TokenBefore(y, x)
    ensures SortTokens([x, y]) == [y, x]
  {
    TokenLeOrder(x, y, x);
    assert [x, y][1..] == [y];
    assert SortTokens([y]) == [y];
  }

  /** A text ending in `&` splits into its body and an empty last argument. */
  lemma SplitTrailing(arg: Bytes)
    requires AMP !in arg
    ensures Split(arg + [AMP], AMP) == [arg, []]
  {
    ConcatEmpty([], arg + [AMP]);
    SplitCons(arg, [], AMP);
  }

  lemma TextsPair(x: Token, y: Token)
    ensures Texts([x, y]) == [TokenText(x), TokenText(y)]
  {
    assert [x, y][1..] == [y];
  }

  /** A lone trailing `&` becomes a leading one: `"a=1&"` gives `"&a=1"`. */
  lemma TrailingAmpersandMovesFront(arg: Bytes)
    requires |arg| > 0 && AMP !in arg
    ensures AlphaReordered(arg + [AMP]) == [AMP] + arg
  {
    var input := arg + [AMP];
    SplitTrailing(arg);
    var t := TokenOf(arg);
    var e: Token := [[]];
    TokenRoundTrip(arg);
    assert Tokens([arg, []]) == [t, e];
    assert TokenBefore(e, t) by {
      if t[0] != [] {
        assert BytesBefore([], t[0]);
      }
    }
    SortPair(t, e);
    TextsPair(e, t);
    assert TokenText(e) == [];
    assert Texts(SortedArguments(input)) == [[], arg];
    JoinPair([], arg, AMP);
    ConcatEmpty([], [AMP]);
    assert AlphaReordered(input) == Join([[], arg], AMP);
  }

  /** One pass of the output loop extends the written text by that vector's item. */
  lemma WriteItem(out: Bytes, qas: seq<Token>, k: nat)
    requires k < |qas| && out == Written(qas[..k])
    ensures var item := qas[k]; |item| == 0 ==> out == Written(qas[..k + 1])
    ensures var item := qas[k]; |item| == 1 ==> out + item[0] + [AMP] == Written(qas[..k + 1])
    ensures var item := qas[k]; |item| >= 2 ==> out + item[0] + [EQUALS] + item[1] + [AMP] == Written(qas[..k + 1])
  {
    var item := qas[k];
    TakeSnoc(qas, k);
    WrittenAppend(qas[..k], item);
    if |item| == 1 {
      AppendAssoc(out, item[0], [AMP]);
    } else if |item| >= 2 {
      AppendAssoc(out, item[0] + [EQUALS] + item[1], [AMP]);
    }
  }

  /** Dropping the last byte of the written arguments gives the reordered query. */
  lemma WrittenReordered(input: Bytes, out: Bytes)
    requires |input| > 1
    requires out == Written(SortedArguments(input))
    ensures |out| >= 1 && out[..|out| - 1] == AlphaReordered(input)
  {
    ArgumentFacts(input);
    WrittenJoin(SortedArguments(input));
  }

  /** The writing loop of `alpha_reorder_query`: each argument, `=`-joined, then `&`. */
  method WriteArguments(qas: seq<Token>) returns (out: Bytes)
    ensures out == Written(qas)
  {
    out := [];
    for k := 0 to |qas|
      invariant out == Written(qas[..k])
    {
      var item := qas[k];
      WriteItem(out, qas, k);
      if |item| == 0 {
      } else if |item| == 1 {
        out := out + item[0] + [AMP];
      } else {
        out := out + item[0] + [EQUALS] + item[1] + [AMP];
      }
    }
    assert qas[..|qas|] == qas;
  }

  /** `alpha_reorder_query`: the arguments sorted in place, then written out with `&` after each. */
  method AlphaReorderQuery(input: Bytes) returns (output: Bytes)
    ensures output == AlphaReordered(input)
  {
    if |input| <= 1 {
      return input;
    }
    var args := Split(input, AMP);
    var qas := Tokens(args);
    qas := SortTokens(qas);
    var out := WriteArguments(qas);
    WrittenReordered(input, out);
    output := out[..|out| - 1];
  }

  // ---------------------------------------------------------------------
  // massage_host
  // ---------------------------------------------------------------------

  const WWW: Bytes := [119, 119, 119]

  /** The length of the run of ASCII digits starting at `i`. */
  function DigitRun(s: Bytes, i: nat): (n: nat)
    requires i <= |s|
    ensures i + n <= |s|
    ensures forall k | i <= k < i + n :: IsDigit(s[k])
    ensures i + n < |s| ==> !IsDigit(s[i + n])
    decreases |s| - i
  {
    if i < |s| && IsDigit(s[i]) then 1 + DigitRun(s, i + 1) else 0
  }

  /**
   * `www\d*\.` tried at `i`: the length of the match. The digits are taken
   * greedily, and as a digit is never a dot no shorter run can match.
   */
  function WwwMatchAt(s: Bytes, i: nat): (m: Option<nat>)
    requires i <= |s|
    ensures m.Some? ==> i + m.value <= |s|
  {
    if i + 3 <= |s| && s[i..i + 3] == WWW then
      var n := DigitRun(s, i + 3);
      if i + 3 + n < |s| && s[i + 3 + n] == DOT then Some(n + 4) else None
    else None
  }

  /** The pattern read directly: `www`, then digits, then a dot, spanning `m` bytes from `i`. */
  predicate WwwShape(s: Bytes, i: nat, m: nat)
  {
    4 <= m && i + m <= |s| && s[i..i + 3] == WWW
    && (forall k | i + 3 <= k < i + m - 1 :: IsDigit(s[k]))
    && s[i + m - 1] == DOT
  }

  /** The matcher finds exactly the matches the pattern describes, and each start has one. */
  lemma WwwMatchAtMeaning(s: Bytes, i: nat, m: nat)
    requires i <= |s|
    ensures WwwMatchAt(s, i) == Some(m) <==> WwwShape(s, i, m)
  {
    if WwwShape(s, i, m) {
      var n := DigitRun(s, i + 3);
      assert n == m - 4;
    }
  }

  /** The leftmost match at or after `i`: its start and its length. */
  function FirstWww(s: Bytes, i: nat): (r: Option<(nat, nat)>)
    requires i <= |s|
    ensures r.Some? ==> i <= r.value.0 <= |s| && WwwMatchAt(s, r.value.0) == Some(r.value.1)
    decreases |s| - i
  {
    match WwwMatchAt(s, i)
    case Some(m) => Some((i, m))
    case None => if i == |s| then None else FirstWww(s, i + 1)
  }

  lemma {:induction false} FirstWwwIsFirst(s: Bytes, i: nat)
    requires i <= |s|
    ensures FirstWww(s, i).Some? ==> forall t | i <= t < FirstWww(s, i).value.0 :: WwwMatchAt(s, t).None?
    ensures FirstWww(s, i).None? ==> forall t | i <= t <= |s| :: WwwMatchAt(s, t).None?
    decreases |s| - i
  {
    if WwwMatchAt(s, i).None? && i < |s| {
      FirstWwwIsFirst(s, i + 1);
    }
  }

  /**
   * Slicing the host after the match's length stays on a character
   * boundary; a cut inside a multi-byte character would panic.
   */
  predicate MassageSafe(host: Bytes)
  {
    match FirstWww(host, 0)
    case None => true
    case Some((_, m)) => m == |host| || !UrlEncoding.IsContinuation(host[m])
  }

  /**
   * `massage_host`: when `www\d*\.` matches anywhere in the host, as many
   * bytes as the match is long are removed from the front of the host.
   */
  function MassageHost(host: Option<Bytes>): (r: Option<Bytes>)
    requires host.Some? ==> MassageSafe(host.value)
    ensures r.Some? <==> host.Some?
    ensures r.Some? ==> |r.value| <= |host.value| && r.value == host.value[|host.value| - |r.value|..]
  {
    match host
    case None => None
    case Some(h) =>
      match FirstWww(h, 0)
      case None => Some(h)
      case Some((_, m)) => Some(h[m..])
  }

  /** A host is left alone exactly when the pattern matches nowhere in it. */
  lemma MassageUnchanged(host: Bytes)
    requires MassageSafe(host)
    ensures MassageHost(Some(host)) == Some(host) <==> forall t | 0 <= t <= |host| :: WwwMatchAt(host, t).None?
  {
    FirstWwwIsFirst(host, 0);
    match FirstWww(host, 0)
    case None =>
    case Some((t, m)) =>
      WwwMatchAtMeaning(host, t, m);
      assert |host[m..]| < |host|;
  }

  /** A leading `www<digits>.` is removed: `"www12.foo.com"` gives `"foo.com"`. */
  lemma MassageLeadingPrefix(digits: Bytes, rest: Bytes)
    requires AllDigits(digits)
    requires rest == [] || !UrlEncoding.IsContinuation(rest[0])
    ensures MassageSafe(WWW + digits + [DOT] + rest)
    ensures MassageHost(Some(WWW + digits + [DOT] + rest)) == Some(rest)
  {
    var h := WWW + digits + [DOT] + rest;
    var m := |digits| + 4;
    assert h[..3] == WWW;
    assert forall k | 3 <= k < m - 1 :: h[k] == digits[k - 3];
    assert h[m - 1] == DOT;
    WwwMatchAtMeaning(h, 0, m);
    assert h[m..] == rest;
  }

  /**
   * Wherever the leftmost match lies, it is the front of the host that
   * loses the match's length: with a match of length `m` at `t`, the
   * result is the host without its first `m` bytes.
   */
  lemma MassageCutsFront(host: Bytes, t: nat, m: nat)
    requires MassageSafe(host)
    requires WwwShape(host, t, m)
    requires forall u | 0 <= u < t :: WwwMatchAt(host, u).None?
    ensures MassageHost(Some(host)) == Some(host[m..])
  {
    WwwMatchAtMeaning(host, t, m);
    FirstWwwIsFirst(host, 0);
    var f := FirstWww(host, 0);
    assert f.Some? && f.value.0 == t;
  }

  /** An ASCII host is always cut on a character boundary. */
  lemma MassageSafeAscii(host: Bytes)
    requires AllAscii(host)
    ensures MassageSafe(host)
  {
  }

  // ---------------------------------------------------------------------
  // get_default_port
  // ---------------------------------------------------------------------

  const PORT_HTTP: Bytes := [56, 48]
  const PORT_HTTPS: Bytes := [52, 52, 51]
  const PORT_OTHER: Bytes := [48]

  /** `get_default_port`: by the lower-cased scheme, 80 for http, 443 for https, else 0. */
  function DefaultPort(scheme: Option<Bytes>): (r: Bytes)
    ensures r == PORT_HTTP <==> scheme.Some? && Lower(scheme.value) == Handy.HTTP
    ensures r == PORT_HTTPS <==> scheme.Some? && Lower(scheme.value) == Handy.HTTPS
    ensures r == PORT_OTHER <==> !(scheme.Some? && Lower(scheme.value) in {Handy.HTTP, Handy.HTTPS})
  {
    match scheme
    case Some(sch) =>
      var low := Lower(sch);
      if low == Handy.HTTP then PORT_HTTP
      else if low == Handy.HTTPS then PORT_HTTPS
      else PORT_OTHER
    case None => PORT_OTHER
  }

  /** The default port ignores the scheme's case. */
  lemma DefaultPortIgnoresCase(scheme: Bytes)
    ensures DefaultPort(Some(scheme)) == DefaultPort(Some(Lower(scheme)))
  {
    LowerIdempotent(scheme);
  }

  // ---------------------------------------------------------------------
  // canonicalize
  // ---------------------------------------------------------------------

  predicate NoUpper(s: Bytes)
  {
    forall i | 0 <= i < |s| :: !IsUpper(s[i])
  }

  /** Removing session ids only deletes bytes. */
  lemma {:induction false} StripAllKeepsBytes(ps: seq<RegexTransformer.Pattern>, q: Bytes)
    ensures forall b | b in RegexTransformer.StripAll(ps, q) :: b in q
    decreases |ps|
  {
    if |ps| > 0 {
      var front := ps[..|ps| - 1];
      StripAllKeepsBytes(front, q);
      var mid := RegexTransformer.StripAll(front, q);
      var p := ps[|ps| - 1];
      match RegexTransformer.LastMatch(p, mid)
      case None =>
      case Some((st, e)) =>
        forall b | b in mid[..st] + mid[e..] ensures b in mid {
          if b in mid[..st] {
            var k :| 0 <= k < st && mid[k] == b;
          } else {
            var k :| 0 <= k < |mid| - e && mid[e..][k] == b;
            assert mid[e + k] == b;
          }
        }
    }
  }

  /** A text without capitals keeps none after session ids are removed. */
  lemma StripAllNoUpper(ps: seq<RegexTransformer.Pattern>, q: Bytes)
    ensures NoUpper(q) ==> NoUpper(RegexTransformer.StripAll(ps, q))
    ensures |RegexTransformer.StripAll(ps, q)| <= |q|
  {
    StripAllKeepsBytes(ps, q);
    var r := RegexTransformer.StripAll(ps, q);
    if NoUpper(q) {
      forall i | 0 <= i < |r| ensures !IsUpper(r[i]) {
        assert r[i] in q;
      }
    }
  }

  /** Reordering keeps the bytes, so a query without capitals keeps none. */
  lemma ReorderedNoUpper(input: Bytes)
    ensures NoUpper(input) ==> NoUpper(AlphaReordered(input))
  {
    var r := AlphaReordered(input);
    if NoUpper(input) {
      forall i | 0 <= i < |r| ensures !IsUpper(r[i]) {
        assert r[i] in multiset(input);
      }
    }
  }

  /**
   * The path section: `"/"` under `path_strip_empty` is kept as it is;
   * otherwise the path is lower-cased, stripped of a session id, cleared
   * when it is then `"/"` under `path_strip_empty`, and loses one trailing
   * `/` when longer than one byte.
   */
  function PathStep(path: Bytes, m: OptionMap): (r: Option<Bytes>)
    ensures r.None? ==> ValueOr(m, "path_strip_empty", false)
    ensures r.Some? ==> |r.value| <= |path|
    ensures ValueOr(m, "path_strip_empty", false) && path == [SLASH] ==> r == Some([SLASH])
    ensures r.Some? && ValueOr(m, "path_lowercase", true) ==> NoUpper(r.value)
  {
    if ValueOr(m, "path_strip_empty", false) && path == [SLASH] then Some(path)
    else
      var lowered := if ValueOr(m, "path_lowercase", true) then Lower(path) else path;
      var stripped := if ValueOr(m, "path_strip_session_id", true) then RegexTransformer.StripAll(RegexTransformer.PathPatterns, lowered) else lowered;
      StripAllNoUpper(RegexTransformer.PathPatterns, lowered);
      var shouldBeNone := ValueOr(m, "path_strip_empty", false) && stripped == [SLASH];
      var trimmed :=
        if ValueOr(m, "path_strip_trailing_slash_unless_empty", true) && EndsWith(stripped, [SLASH]) && |stripped| > 1
        then stripped[..|stripped| - 1] else stripped;
      if shouldBeNone then None else Some(trimmed)
  }

  /** With the default switches, a lower-case path without `(` loses only its trailing `/`: `"/big/"` gives `"/big"`. */
  lemma PathTrailingSlash(path: Bytes, m: OptionMap)
    requires "path_strip_empty" !in m && "path_lowercase" !in m
    requires "path_strip_session_id" !in m && "path_strip_trailing_slash_unless_empty" !in m
    requires NoUpper(path) && LPAREN !in path
    requires |path| > 1 && path[|path| - 1] == SLASH
    ensures PathStep(path, m) == Some(path[..|path| - 1])
  {
    assert Lower(path) == path;
    RegexTransformer.PathWithoutParen(path);
  }

  /**
   * The query section for a present query: a non-empty one is stripped of
   * session ids, lower-cased and reordered; an empty result is dropped
   * under `query_strip_empty`.
   */
  function QueryStep(query: Bytes, m: OptionMap): (r: Option<Bytes>)
    ensures r.None? ==> ValueOr(m, "query_strip_empty", true)
    ensures r.Some? && ValueOr(m, "query_strip_empty", true) ==> |r.value| > 0
    ensures !ValueOr(m, "query_strip_empty", true) ==> r.Some?
    ensures r.Some? ==> |r.value| <= |query|
    ensures r.Some? && |query| > 0 && ValueOr(m, "query_lowercase", true) ==> NoUpper(r.value)
  {
    var stripped := if |query| > 0 && ValueOr(m, "query_strip_session_id", true) then RegexTransformer.StripAll(RegexTransformer.QueryPatterns, query) else query;
    var lowered := if |query| > 0 && ValueOr(m, "query_lowercase", true) then Lower(stripped) else stripped;
    var reordered := if |query| > 0 && ValueOr(m, "query_alpha_reorder", true) then AlphaReordered(lowered) else lowered;
    ReorderedNoUpper(lowered);
    if |reordered| == 0 && ValueOr(m, "query_strip_empty", true) then None else Some(reordered)
  }

  /** The host after the lower-casing step. */
  function LoweredHost(u: Handy.HandyUrl, m: OptionMap): Option<Bytes>
  {
    if ValueOr(m, "host_lowercase", true) && u.host.Some? then Some(Lower(u.host.value)) else u.host
  }

  /** `unwrap_or_default` on the scheme. */
  function SchemeOrEmpty(u: Handy.HandyUrl): Bytes
  {
    if u.scheme.Some? then u.scheme.value else []
  }

  /** Whether the `www` step runs: switched on, a host, and a scheme other than `dns`. */
  predicate MassageApplies(u: Handy.HandyUrl, m: OptionMap)
  {
    ValueOr(m, "host_massage", true) && u.host.Some? && SchemeOrEmpty(u) != Handy.DNS
  }

  /** The pass does not panic: the `www` step cuts the host on a character boundary. */
  predicate Defined(u: Handy.HandyUrl, m: OptionMap)
  {
    MassageApplies(u, m) ==> MassageSafe(LoweredHost(u, m).value)
  }

  /** The host section: lower-casing, then the `www` step. */
  function HostStep(u: Handy.HandyUrl, m: OptionMap): (r: Option<Bytes>)
    requires Defined(u, m)
    ensures r.Some? <==> u.host.Some?
    ensures r.Some? ==> |r.value| <= |u.host.value|
    ensures r.Some? ==> r.value == LoweredHost(u, m).value[|u.host.value| - |r.value|..]
    ensures r.Some? && ValueOr(m, "host_lowercase", true) ==> NoUpper(r.value)
    ensures !MassageApplies(u, m) ==> r == LoweredHost(u, m)
  {
    var lowered := LoweredHost(u, m);
    if MassageApplies(u, m) then MassageHost(lowered) else lowered
  }

  /** The port section: a port equal to the scheme's default is cleared. */
  function PortStep(u: Handy.HandyUrl, m: OptionMap): (r: Option<Bytes>)
    ensures r.None? <==> (u.port.None?
      || (ValueOr(m, "port_strip_default", true) && u.scheme.Some? && u.port.value == DefaultPort(u.scheme)))
    ensures r.Some? ==> r == u.port
  {
    if ValueOr(m, "port_strip_default", true) && u.scheme.Some? && u.port.Some? && u.port.value == DefaultPort(u.scheme)
    then None else u.port
  }

  /**
   * The IA pass. Scheme and fragment are untouched; credentials go under
   * `auth_strip_user` (both) or `auth_strip_pass` (the password); host,
   * port, path and query go through their sections; a URL without a query
   * loses its trailing-`?` marker.
   */
  function Canonicalized(u: Handy.HandyUrl, m: OptionMap): (r: Handy.HandyUrl)
    requires Defined(u, m)
    ensures r.scheme == u.scheme && r.hash == u.hash
    ensures r.host.Some? <==> u.host.Some?
    ensures ValueOr(m, "auth_strip_user", true) ==> r.authUser.None? && r.authPass.None?
    ensures !ValueOr(m, "auth_strip_user", true) ==> r.authUser == u.authUser
    ensures ValueOr(m, "auth_strip_pass", true) ==> r.authPass.None?
    ensures !ValueOr(m, "auth_strip_user", true) && !ValueOr(m, "auth_strip_pass", true) ==> r.authPass == u.authPass
    ensures r.port.Some? ==> r.port == u.port
    ensures r.path.Some? ==> u.path.Some? && |r.path.value| <= |u.path.value|
    ensures r.query.Some? ==> u.query.Some? && |r.query.value| <= |u.query.value|
    ensures r.lastDelimiter == if u.query.Some? then u.lastDelimiter else None
  {
    var strip := ValueOr(m, "auth_strip_user", true);
    u.(host := HostStep(u, m),
       authUser := if strip then None else u.authUser,
       authPass := if strip || ValueOr(m, "auth_strip_pass", true) then None else u.authPass,
       port := PortStep(u, m),
       path := if u.path.Some? then PathStep(u.path.value, m) else None,
       query := if u.query.Some? then QueryStep(u.query.value, m) else None,
       lastDelimiter := if u.query.Some? then u.lastDelimiter else None)
  }

  /** The record the pass returns, field by field. */
  lemma CanonicalizedFields(u: Handy.HandyUrl, m: OptionMap)
    requires Defined(u, m)
    ensures Canonicalized(u, m) == Handy.HandyUrl(u.scheme,
      if ValueOr(m, "auth_strip_user", true) then None else u.authUser,
      if ValueOr(m, "auth_strip_user", true) || ValueOr(m, "auth_strip_pass", true) then None else u.authPass,
      HostStep(u, m), PortStep(u, m),
      if u.path.Some? then PathStep(u.path.value, m) else None,
      if u.query.Some? then QueryStep(u.query.value, m) else None,
      u.hash,
      if u.query.Some? then u.lastDelimiter else None)
  {
  }

  /** The path section of `canonicalize`, on a present path. */
  method CanonicalizePath(pathInput: Bytes, options: SurtrOptions) returns (r: Option<Bytes>)
    ensures r == PathStep(pathInput, options.options)
  {
    var path := pathInput;
    var shouldBeNone := false;
    if options.GetOr("path_strip_empty", false) && path == [SLASH] {
      r := None;
    } else {
      if options.GetOr("path_lowercase", true) {
        path := Lower(path);
      }
      if options.GetOr("path_strip_session_id", true) {
        path := RegexTransformer.StripPathSessionId(path);
      }
      if options.GetOr("path_strip_empty", false) && path == [SLASH] {
        shouldBeNone := true;
      }
      if options.GetOr("path_strip_trailing_slash_unless_empty", true) && EndsWith(path, [SLASH]) && |path| > 1 {
        path := path[..|path| - 1];
      }
    }
    if shouldBeNone {
      r := None;
    } else {
      r := Some(path);
    }
  }

  /** The query section of `canonicalize`, on a present query. */
  method CanonicalizeQuery(queryInput: Bytes, options: SurtrOptions) returns (r: Option<Bytes>)
    ensures r == QueryStep(queryInput, options.options)
  {
    var query := queryInput;
    if |query| > 0 {
      if options.GetOr("query_strip_session_id", true) {
        query := RegexTransformer.StripQuerySessionId(query);
      }
      if options.GetOr("query_lowercase", true) {
        query := Lower(query);
      }
      if options.GetOr("query_alpha_reorder", true) {
        query := AlphaReorderQuery(query);
      }
    }
    if |query| == 0 && options.GetOr("query_strip_empty", true) {
      r := None;
    } else {
      r := Some(query);
    }
  }

  /** The host section of `canonicalize`: lower-casing, then the `www` step unless the scheme is `dns`. */
  method CanonicalizeHost(url: Handy.HandyUrl, options: SurtrOptions) returns (host: Option<Bytes>)
    requires Defined(url, options.options)
    ensures host == HostStep(url, options.options)
  {
    host := url.host;
    if options.GetOr("host_lowercase", true) && host.Some? {
      host := Some(Lower(host.value));
    }
    var scheme := if url.scheme.Some? then url.scheme.value else [];
    if options.GetOr("host_massage", true) && host.Some? && scheme != Handy.DNS {
      host := MassageHost(host);
    }
  }

  /** The port section of `canonicalize`. */
  method CanonicalizePort(url: Handy.HandyUrl, options: SurtrOptions) returns (port: Option<Bytes>)
    ensures port == PortStep(url, options.options)
  {
    port := url.port;
    if options.GetOr("port_strip_default", true) && url.scheme.Some? {
      var defaultPort := DefaultPort(url.scheme);
      if port.Some? && port.value == defaultPort {
        port := None;
      }
    }
  }

  /** `canonicalize`: the owned record updated field by field under the option switches; it never fails. */
  method Canonicalize(urlInput: Handy.HandyUrl, options: SurtrOptions) returns (r: Result<Handy.HandyUrl>)
    requires Defined(urlInput, options.options)
    ensures r == Ok(Canonicalized(urlInput, options.options))
  {
    var url := urlInput;
    var host := CanonicalizeHost(url, options);
    url := url.(host := host);
    if options.GetOr("auth_strip_user", true) {
      url := url.(authUser := None, authPass := None);
    } else if options.GetOr("auth_strip_pass", true) {
      url := url.(authPass := None);
    }
    var port := CanonicalizePort(url, options);
    url := url.(port := port);
    if url.path.Some? {
      var path := CanonicalizePath(url.path.value, options);
      url := url.(path := path);
    }
    if url.query.Some? {
      var query := CanonicalizeQuery(url.query.value, options);
      url := url.(query := query);
    } else {
      url := url.(lastDelimiter := None);
    }
    CanonicalizedFields(urlInput, options.options);
    r := Ok(url);
  }
}
