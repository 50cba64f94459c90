/** Sequence helpers shared by the model: an option type, an order-preserving
    filter, and joining/splitting text on a separator character (the
    `Array.prototype.filter` and `Array.prototype.join` the application uses). */
module Seqs {

  datatype Option<T> = None | Some(value: T)

  /** The elements of `s` that satisfy `keep`, in their original order. */
  function Filter<T>(s: seq<T>, keep: T -> bool): (r: seq<T>)
    ensures |r| <= |s|
    ensures forall k :: 0 <= k < |r| ==> r[k] in s && keep(r[k])
    ensures forall k :: 0 <= k < |s| && keep(s[k]) ==> s[k] in r
  {
    if s == [] then []
    else (if keep(s[0]) then [s[0]] else []) + Filter(s[1..], keep)
  }

  /** Filtering distributes over concatenation: the relative order of the kept
      elements is the order of the input. */
  lemma {:induction false} FilterConcat<T>(s: seq<T>, t: seq<T>, keep: T -> bool)
    ensures Filter(s + t, keep) == Filter(s, keep) + Filter(t, keep)
  {
    if s == [] {
      assert s + t == t;
    } else {
      assert (s + t)[1..] == s[1..] + t;
      FilterConcat(s[1..], t, keep);
    }
  }

  /** When every element is kept, the filter is the identity. */
  lemma {:induction false} FilterKeepsAll<T>(s: seq<T>, keep: T -> bool)
    requires forall k :: 0 <= k < |s| ==> keep(s[k])
    ensures Filter(s, keep) == s
  {
    if s != [] {
      FilterKeepsAll(s[1..], keep);
    }
  }

  /** The lines of `lines` separated by `sep`, as `Array.prototype.join` does. */
  function Join(lines: seq<string>, sep: char): (s: string)
    ensures |lines| == 1 ==> s == lines[0]
  {
    if |lines| == 0 then ""
    else if |lines| == 1 then lines[0]
    else lines[0] + [sep] + Join(lines[1..], sep)
  }

  /** `s` cut at every occurrence of `sep`; always at least one piece. */
  function Split(s: string, sep: char): (r: seq<string>)
    ensures |r| >= 1
    decreases |s|
  {
    if |s| == 0 then [""]
    else
      var rest := Split(s[1..], sep);
      if s[0] == sep then [""] + rest else [[s[0]] + rest[0]] + rest[1..]
  }

  lemma {:induction false} SplitNoSeparator(a: string, sep: char)
    requires sep !in a
    ensures Split(a, sep) == [a]
  {
    if |a| > 0 {
      SplitNoSeparator(a[1..], sep);
      assert [a[0]] + a[1..] == a;
    }
  }

  lemma {:induction false} SplitAfterSeparator(a: string, b: string, sep: char)
    requires sep !in a
    ensures Split(a + [sep] + b, sep) == [a] + Split(b, sep)
  {
    var s := a + [sep] + b;
    if |a| == 0 {
      assert s[0] == sep && s[1..] == b;
    } else {
      assert s[0] == a[0] && s[1..] == a[1..] + [sep] + b;
      SplitAfterSeparator(a[1..], b, sep);
      assert [a[0]] + a[1..] == a;
    }
  }

  /** Splitting a joined text on the separator gives back the lines, provided
      no line contains the separator. */
  lemma {:induction false} SplitJoin(lines: seq<string>, sep: char)
    requires |lines| >= 1
    requires forall k :: 0 <= k < |lines| ==> sep !in lines[k]
    ensures Split(Join(lines, sep), sep) == lines
  {
    if |lines| == 1 {
      SplitNoSeparator(lines[0], sep);
    } else {
      SplitAfterSeparator(lines[0], Join(lines[1..], sep), sep);
      SplitJoin(lines[1..], sep);
      assert [lines[0]] + lines[1..] == lines;
    }
  }

  /** A slice that lies inside the front of a concatenation. */
  lemma SliceOfFront<T>(x: seq<T>, y: seq<T>, i: nat, j: nat)
    requires i <= j <= |x|
    ensures (x + y)[i..j] == x[i..j]
  {
  }

  /** The back of a concatenation, sliced off again. */
  lemma SliceOfBack<T>(x: seq<T>, y: seq<T>)
    ensures (x + y)[|x|..|x| + |y|] == y
  {
  }

  /** The number of `true` entries of `s`. */
  function CountTrue(s: seq<bool>): nat
  {
    if |s| == 0 then 0 else CountTrue(s[..|s| - 1]) + (if s[|s| - 1] then 1 else 0)
  }

  lemma {:induction false} CountTrueAtMostLength(s: seq<bool>)
    ensures CountTrue(s) <= |s|
  {
    if |s| > 0 {
      CountTrueAtMostLength(s[..|s| - 1]);
    }
  }

  /** The positions of `s` that hold `true`. */
  function TrueIndices(s: seq<bool>): set<nat> {
    set k: nat | k < |s| && s[k]
  }

  /** Extending a sequence by one entry adds that position when it holds
      `true`, and the position is new. */
  lemma TrueIndicesStep(s: seq<bool>)
    requires |s| > 0
    ensures |s| - 1 !in TrueIndices(s[..|s| - 1])
    ensures TrueIndices(s) == TrueIndices(s[..|s| - 1]) + (if s[|s| - 1] then {|s| - 1} else {})
  {
  }

  /** The count is the number of positions that hold `true`. */
  lemma {:induction false} CountTrueIsCardinality(s: seq<bool>)
    ensures CountTrue(s) == |TrueIndices(s)|
  {
    if |s| > 0 {
      CountTrueIsCardinality(s[..|s| - 1]);
      TrueIndicesStep(s);
    }
  }

  lemma {:induction false} CountTrueNone(s: seq<bool>)
    requires true !in s
    ensures CountTrue(s) == 0
  {
    if |s| > 0 {
      assert s == s[..|s| - 1] + [s[|s| - 1]];
      CountTrueNone(s[..|s| - 1]);
    }
  }

  /** Where every `true` of `s` is matched by a `true` of `t`, `s` counts no
      more than `t`. */
  lemma {:induction false} CountTrueMonotone(s: seq<bool>, t: seq<bool>)
    requires |s| == |t|
    requires forall k :: 0 <= k < |s| && s[k] ==> t[k]
    ensures CountTrue(s) <= CountTrue(t)
  {
    if |s| > 0 {
      CountTrueMonotone(s[..|s| - 1], t[..|t| - 1]);
    }
  }
}
