/** The eight tone labels: permutations of 0..7, their enumeration, and the 3-bit arithmetic on them. */
module Labels {
  import opened FiniteSets

  /** labels[t] is the 3-bit label that tone t carries. */
  type ToneLabels = seq<nat>

  ghost predicate ValidLabels(labels: ToneLabels) {
    && |labels| == 8
    && (forall t | 0 <= t < 8 :: labels[t] < 8)
    && (forall t, u | 0 <= t < u < 8 :: labels[t] != labels[u])
  }

  /** The check the tools make, with the set of labels seen so far as the mask. */
  method CheckLabels(labels: ToneLabels) returns (ok: bool)
    requires |labels| == 8
    ensures ok <==> ValidLabels(labels)
  {
    var seen: set<nat> := {};
    for t := 0 to 8
      invariant forall u | 0 <= u < t :: labels[u] < 8
      invariant forall u, v | 0 <= u < v < t :: labels[u] != labels[v]
      invariant forall l :: l in seen <==> l in labels[..t]
    {
      if labels[t] >= 8 || labels[t] in seen { return false; }
      seen := seen + {labels[t]};
      assert labels[..t + 1] == labels[..t] + [labels[t]];
    }
    assert ValidLabels(labels);
    return true;
  }

  /** Bit b of a label, counted from the most significant of the three. */
  predicate LabelBit(value: nat, b: nat)
    requires value < 8 && b < 3
  {
    if b == 0 then value / 4 == 1 else if b == 1 then value / 2 % 2 == 1 else value % 2 == 1
  }

  function LabelOf(b0: bool, b1: bool, b2: bool): (value: nat)
    ensures value < 8
  {
    (if b0 then 4 else 0) + (if b1 then 2 else 0) + if b2 then 1 else 0
  }

  function XorLabel(a: nat, b: nat): (c: nat)
    requires a < 8 && b < 8
    ensures c < 8
  {
    LabelOf(LabelBit(a, 0) != LabelBit(b, 0), LabelBit(a, 1) != LabelBit(b, 1), LabelBit(a, 2) != LabelBit(b, 2))
  }

  lemma LabelRoundTrip(value: nat)
    requires value < 8
    ensures LabelOf(LabelBit(value, 0), LabelBit(value, 1), LabelBit(value, 2)) == value
  {
  }

  lemma LabelOfBits(b0: bool, b1: bool, b2: bool)
    ensures LabelBit(LabelOf(b0, b1, b2), 0) == b0
    ensures LabelBit(LabelOf(b0, b1, b2), 1) == b1
    ensures LabelBit(LabelOf(b0, b1, b2), 2) == b2
  {
  }

  /** The three bits by cases. */
  lemma LabelBitCases(value: nat)
    requires value < 8
    ensures LabelBit(value, 0) == (value >= 4)
    ensures LabelBit(value, 1) == (value == 2 || value == 3 || value == 6 || value == 7)
    ensures LabelBit(value, 2) == (value == 1 || value == 3 || value == 5 || value == 7)
  {
  }

  lemma XorLabelOf(a0: bool, a1: bool, a2: bool, b0: bool, b1: bool, b2: bool)
    ensures XorLabel(LabelOf(a0, a1, a2), LabelOf(b0, b1, b2)) == LabelOf(a0 != b0, a1 != b1, a2 != b2)
  {
    LabelOfBits(a0, a1, a2);
    LabelOfBits(b0, b1, b2);
  }

  lemma XorLabelBit(a: nat, b: nat, k: nat)
    requires a < 8 && b < 8 && k < 3
    ensures LabelBit(XorLabel(a, b), k) == (LabelBit(a, k) != LabelBit(b, k))
  {
    LabelOfBits(LabelBit(a, 0) != LabelBit(b, 0), LabelBit(a, 1) != LabelBit(b, 1), LabelBit(a, 2) != LabelBit(b, 2));
  }

  lemma LabelsDiffer(a: nat, b: nat)
    requires a < 8 && b < 8 && forall k | 0 <= k < 3 :: LabelBit(a, k) == LabelBit(b, k)
    ensures a == b
  {
    LabelRoundTrip(a);
    LabelRoundTrip(b);
  }

  // ---------------------------------------------------------------- linear relabellings

  ghost predicate LinearOnLabels(f: ToneLabels) {
    && ValidLabels(f)
    && forall a, b | 0 <= a < 8 && 0 <= b < 8 :: f[XorLabel(a, b)] == XorLabel(f[a], f[b])
  }

  lemma LinearAt(f: ToneLabels, a: nat, b: nat)
    requires LinearOnLabels(f) && a < 8 && b < 8
    ensures ValidLabels(f) && f[XorLabel(a, b)] == XorLabel(f[a], f[b])
  {
  }

  /** The labels composed with a relabelling. */
  function Relabel(f: ToneLabels, labels: ToneLabels): (r: ToneLabels)
    requires |f| == 8 && forall t | 0 <= t < |labels| :: labels[t] < 8
    ensures |r| == |labels|
  {
    seq(|labels|, t requires 0 <= t < |labels| => f[labels[t]])
  }

  /** A permutation of the labels uses each of them. */
  lemma LabelUsed(labels: ToneLabels, l: nat) returns (t: nat)
    requires ValidLabels(labels) && l < 8
    ensures t < 8 && labels[t] == l
  {
    var used := set x | x in labels;
    var all: set<nat> := {0, 1, 2, 3, 4, 5, 6, 7};
    ElementsExactly(labels);
    if l !in used {
      assert used <= all - {l};
      SubsetSize(used, all - {l});
    }
    t :| 0 <= t < 8 && labels[t] == l;
  }

  // ---------------------------------------------------------------- enumeration

  /** What the permutation loop visits: every valid label order, each once. */
  ghost predicate Enumerates(order: seq<ToneLabels>) {
    && (forall i | 0 <= i < |order| :: ValidLabels(order[i]))
    && (forall labels | ValidLabels(labels) :: labels in order)
    && (forall i, j | 0 <= i < j < |order| :: order[i] != order[j])
  }

  ghost predicate DistinctBelow8(s: seq<nat>) {
    (forall i | 0 <= i < |s| :: s[i] < 8) && (forall i, j | 0 <= i < j < |s| :: s[i] != s[j])
  }

  /** Lexicographic order: all ways to lengthen the prefix by k labels whose next one is at least l. */
  function Extensions(prefix: seq<nat>, k: nat, l: nat): seq<ToneLabels>
    requires l <= 8
    decreases k, 8 - l
  {
    if k == 0 then [prefix]
    else if l == 8 then []
    else (if l in prefix then [] else Extensions(prefix + [l], k - 1, 0)) + Extensions(prefix, k, l + 1)
  }

  ghost predicate Extends(s: seq<nat>, prefix: seq<nat>, k: nat, l: nat) {
    && |s| == |prefix| + k && prefix <= s && DistinctBelow8(s)
    && (k > 0 ==> s[|prefix|] >= l)
  }

  lemma {:induction false} ExtensionsExact(prefix: seq<nat>, k: nat, l: nat)
    requires l <= 8 && DistinctBelow8(prefix)
    ensures forall s :: s in Extensions(prefix, k, l) <==> Extends(s, prefix, k, l)
    ensures forall i, j | 0 <= i < j < |Extensions(prefix, k, l)| :: Extensions(prefix, k, l)[i] != Extensions(prefix, k, l)[j]
    decreases k, 8 - l
  {
    if k > 0 && l < 8 {
      var p := prefix + [l];
      var a := if l in prefix then [] else Extensions(p, k - 1, 0);
      var b := Extensions(prefix, k, l + 1);
      ExtensionsExact(prefix, k, l + 1);
      if l !in prefix { ExtensionsExact(p, k - 1, 0); }
      forall s ensures s in a <==> Extends(s, prefix, k, l) && s[|prefix|] == l {
        if Extends(s, prefix, k, l) && s[|prefix|] == l {
          assert s[..|prefix|] == prefix;
          assert s[..|p|] == p;
          assert l !in prefix;
          assert Extends(s, p, k - 1, 0);
        }
        if s in a {
          assert Extends(s, p, k - 1, 0);
          assert s[..|prefix|] == p[..|prefix|] == prefix;
        }
      }
      forall i, j | 0 <= i < |a| && 0 <= j < |b| ensures a[i] != b[j] {
        assert a[i] in a && b[j] in b;
      }
    }
    if k == 0 {
      forall s ensures s in [prefix] <==> Extends(s, prefix, k, l) {
        if Extends(s, prefix, k, l) { assert s == prefix; }
      }
    }
  }

  /** There is such an enumeration: the lexicographic one, starting at 0, 1, ..., 7. */
  lemma EnumerationExists(width: nat) returns (order: seq<ToneLabels>)
    requires width == 8
    ensures Enumerates(order)
  {
    hide Extensions;
    order := Extensions([], width, 0);
    ExtensionsExact([], width, 0);
    forall i | 0 <= i < |order| ensures ValidLabels(order[i]) {
      assert order[i] in order;
      assert Extends(order[i], [], width, 0);
    }
    forall labels | ValidLabels(labels) ensures labels in order {
      assert Extends(labels, [], width, 0);
    }
  }
}
