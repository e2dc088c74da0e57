/** The tone-label search: map each frame to bits under a label order, take the rank, keep the
    twelve label orders of least rank. */
module ToneMaps {
  import opened FiniteSets
  import opened Gf2
  import opened Elimination
  import opened CodeSpaces
  import opened Labels
  import opened Sorting
  import opened TopK

  predicate ValidTones(tones: seq<nat>) {
    forall s | 0 <= s < |tones| :: tones[s] < 8
  }

  /** Three bits per tone, the label's most significant bit first. */
  function MappedBits(tones: seq<nat>, labels: ToneLabels): (bits: Vec)
    requires |labels| == 8 && (forall t | 0 <= t < 8 :: labels[t] < 8) && ValidTones(tones)
    ensures |bits| == 3 * |tones|
  {
    seq(3 * |tones|, i requires 0 <= i < 3 * |tones| => LabelBit(labels[tones[i / 3]], i % 3))
  }

  ghost predicate ValidFrames(d: nat, frames: seq<seq<nat>>) {
    forall r | 0 <= r < |frames| :: |frames[r]| == d && ValidTones(frames[r])
  }

  ghost function MappedFrames(d: nat, frames: seq<seq<nat>>, labels: ToneLabels): (words: seq<Vec>)
    requires ValidFrames(d, frames) && ValidLabels(labels)
    ensures Uniform(3 * d, words) && |words| == |frames|
  {
    seq(|frames|, r requires 0 <= r < |frames| => MappedBits(frames[r], labels))
  }

  ghost function TrueRank(d: nat, frames: seq<seq<nat>>, labels: ToneLabels): nat
    requires ValidFrames(d, frames) && ValidLabels(labels)
  {
    Rank(3 * d, MappedFrames(d, frames, labels))
  }

  // ---------------------------------------------------------------- mapping and ranking

  method TonesToBits(tones: seq<nat>, labels: ToneLabels) returns (ok: bool, bits: Vec)
    requires |labels| == 8
    ensures ok <==> ValidLabels(labels) && ValidTones(tones)
    ensures ok ==> bits == MappedBits(tones, labels)
  {
    bits := Zero(3 * |tones|);
    var good := CheckLabels(labels);
    if !good { return false, bits; }
    for s := 0 to |tones|
      invariant ValidTones(tones[..s]) && |bits| == 3 * |tones|
      invariant forall i | 0 <= i < 3 * s :: bits[i] == LabelBit(labels[tones[i / 3]], i % 3)
    {
      if tones[s] >= 8 { return false, bits; }
      var value := labels[tones[s]];
      assert tones[..s + 1] == tones[..s] + [tones[s]];
      bits := bits[3 * s := value / 4 == 1];
      bits := bits[3 * s + 1 := value / 2 % 2 == 1];
      bits := bits[3 * s + 2 := value % 2 == 1];
    }
    assert tones[..|tones|] == tones;
    return true, bits;
  }

  lemma {:induction false} RankOfPrefix(n: nat, rows: seq<Vec>, k: nat)
    requires Uniform(n, rows) && k <= |rows|
    ensures Rank(n, rows[..k]) <= Rank(n, rows)
    decreases |rows|
  {
    if k < |rows| {
      RankOfPrefix(n, rows[..|rows| - 1], k);
      assert rows[..|rows| - 1][..k] == rows[..k];
    } else {
      assert rows[..k] == rows;
    }
  }

  lemma RankStep(n: nat, rows: seq<Vec>, k: nat)
    requires Uniform(n, rows) && k < |rows|
    ensures Rank(n, rows[..k + 1]) == Rank(n, rows[..k]) + if rows[k] in Span(n, rows[..k]) then 0 else 1
  {
    assert rows[..k + 1][..k] == rows[..k];
  }

  /** How many frames come before the first bad one, looking from frame r on. */
  ghost function GoodFrom(frames: seq<seq<nat>>, r: nat): (p: nat)
    requires r <= |frames|
    ensures r <= p <= |frames|
    ensures forall i | r <= i < p :: ValidTones(frames[i])
    ensures p < |frames| ==> !ValidTones(frames[p])
    decreases |frames| - r
  {
    if r == |frames| || !ValidTones(frames[r]) then r else GoodFrom(frames, r + 1)
  }

  /** What ranking with a cutoff returns: the rank if it is within the cutoff, one more than the
      cutoff if it is not, and 3d + 1 if a bad frame is met before the cutoff is passed. */
  ghost function CutoffRank(d: nat, frames: seq<seq<nat>>, labels: ToneLabels, stopAbove: nat): nat
    requires ValidLabels(labels) && forall r | 0 <= r < |frames| :: |frames[r]| == d
  {
    var p := GoodFrom(frames, 0);
    var rank := TrueRank(d, frames[..p], labels);
    if rank > stopAbove then stopAbove + 1 else if p < |frames| then 3 * d + 1 else rank
  }

  lemma PrefixRank(d: nat, frames: seq<seq<nat>>, labels: ToneLabels, k: nat)
    requires k <= |frames| && ValidLabels(labels) && ValidFrames(d, frames)
    ensures ValidFrames(d, frames[..k]) && TrueRank(d, frames[..k], labels) <= TrueRank(d, frames, labels)
  {
    assert MappedFrames(d, frames, labels)[..k] == MappedFrames(d, frames[..k], labels);
    RankOfPrefix(3 * d, MappedFrames(d, frames, labels), k);
  }

  lemma CutoffPassed(d: nat, frames: seq<seq<nat>>, labels: ToneLabels, k: nat)
    requires ValidLabels(labels) && forall r | 0 <= r < |frames| :: |frames[r]| == d
    requires k <= GoodFrom(frames, 0)
    ensures TrueRank(d, frames[..k], labels) <= TrueRank(d, frames[..GoodFrom(frames, 0)], labels)
  {
    var p := GoodFrom(frames, 0);
    assert frames[..p][..k] == frames[..k];
    PrefixRank(d, frames[..p], labels, k);
  }

  lemma OneMoreFrame(d: nat, frames: seq<seq<nat>>, labels: ToneLabels, words: seq<Vec>, r: nat)
    requires ValidLabels(labels) && (forall k | 0 <= k < |frames| :: |frames[k]| == d) && r < |frames|
    requires ValidFrames(d, frames[..r]) && words == MappedFrames(d, frames[..r], labels) && ValidTones(frames[r])
    ensures ValidFrames(d, frames[..r + 1])
    ensures var more := words + [MappedBits(frames[r], labels)];
      MappedFrames(d, frames[..r + 1], labels) == more && more[..r] == words && more[..r + 1] == more
  {
    hide MappedBits;
    assert frames[..r + 1] == frames[..r] + [frames[r]];
  }

  /** One more word in the table: its row space and rank are those of one more row. */
  method RankWord(t: PivotTable, ghost words: seq<Vec>, bits: Vec)
    requires t.Valid() && Uniform(t.n, words) && |bits| == t.n
    requires t.RowSpace() == Span(t.n, words) && t.rank == Rank(t.n, words)
    modifies t`rank, t.rows, t.has
    ensures t.Valid() && Uniform(t.n, words + [bits])
    ensures t.RowSpace() == Span(t.n, words + [bits]) && t.rank == Rank(t.n, words + [bits]) <= old(t.rank) + 1
  {
    hide Span, Rank, Echelon, Weight;
    ghost var more, r := words + [bits], |words|;
    assert more[..r] == words && more[..r + 1] == more;
    SpanOfPrefix(t.n, more, r, t.Basis());
    RankStep(t.n, more, r);
    t.Insert(bits);
  }

  method MappedRank(d: nat, frames: seq<seq<nat>>, labels: ToneLabels, stopAbove: nat) returns (rank: nat)
    requires |labels| == 8 && forall r | 0 <= r < |frames| :: |frames[r]| == d
    ensures rank == if ValidLabels(labels) then CutoffRank(d, frames, labels, stopAbove) else 3 * d + 1
  {
    hide Span, Rank, MappedBits, Echelon, Weight, Selected, MappedFrames;
    var n := 3 * d;
    var good := CheckLabels(labels);
    if !good { return n + 1; }
    var t := new PivotTable(n);
    ghost var words: seq<Vec> := [];
    NoRows(n);
    for r := 0 to |frames|
      invariant t.Valid() && t.n == n && fresh(t) && fresh(t.rows) && fresh(t.has)
      invariant GoodFrom(frames, 0) == GoodFrom(frames, r)
      invariant words == MappedFrames(d, frames[..r], labels)
      invariant t.RowSpace() == Span(n, words) && t.rank == Rank(n, words) <= stopAbove
    {
      var ok, bits := TonesToBits(frames[r], labels);
      if !ok { return n + 1; }
      OneMoreFrame(d, frames, labels, words, r);
      RankWord(t, words, bits);
      words := words + [bits];
      if t.rank > stopAbove {
        CutoffPassed(d, frames, labels, r + 1);
        return t.rank;
      }
    }
    assert frames[..|frames|] == frames;
    return t.rank;
  }

  /** Pruning is exact on well-formed frames: the true rank up to the cutoff, else one more. */
  lemma PruningIsExact(d: nat, frames: seq<seq<nat>>, labels: ToneLabels, stopAbove: nat)
    requires ValidLabels(labels) && ValidFrames(d, frames)
    ensures CutoffRank(d, frames, labels, stopAbove)
         == if TrueRank(d, frames, labels) <= stopAbove then TrueRank(d, frames, labels) else stopAbove + 1
  {
    assert GoodFrom(frames, 0) == |frames|;
    assert frames[..|frames|] == frames;
  }

  /** The three bits of a tone: the label's 4, 2 and 1, in that order. */
  lemma MappedTone(tones: seq<nat>, labels: ToneLabels, s: nat)
    requires ValidLabels(labels) && ValidTones(tones) && s < |tones|
    ensures var bits, value := MappedBits(tones, labels), labels[tones[s]];
      && bits[3 * s] == (value >= 4)
      && bits[3 * s + 1] == (value == 2 || value == 3 || value == 6 || value == 7)
      && bits[3 * s + 2] == (value == 1 || value == 3 || value == 5 || value == 7)
  {
    hide LabelBit;
    LabelBitCases(labels[tones[s]]);
    forall b | 0 <= b < 3 ensures MappedBits(tones, labels)[3 * s + b] == LabelBit(labels[tones[s]], b) {
      assert (3 * s + b) / 3 == s && (3 * s + b) % 3 == b;
    }
  }

  /** A frame with a bad tone ends the ranking: 3d + 1 is returned unless the frames before it already
      exceed the cutoff. */
  lemma BadFrameEndsRanking(d: nat, frames: seq<seq<nat>>, labels: ToneLabels, stopAbove: nat, bad: nat)
    requires ValidLabels(labels) && (forall r | 0 <= r < |frames| :: |frames[r]| == d) && bad < |frames|
    requires ValidFrames(d, frames[..bad]) && !ValidTones(frames[bad])
    ensures CutoffRank(d, frames, labels, stopAbove)
         == if TrueRank(d, frames[..bad], labels) > stopAbove then stopAbove + 1 else 3 * d + 1
  {
    forall i | 0 <= i < bad ensures ValidTones(frames[i]) {
      assert frames[..bad][i] == frames[i];
    }
    assert GoodFrom(frames, 0) == bad;
  }

  // ---------------------------------------------------------------- relabelling invariance

  function Block(v: Vec, s: nat): (value: nat)
    requires 3 * s + 2 < |v|
    ensures value < 8
  {
    LabelOf(v[3 * s], v[3 * s + 1], v[3 * s + 2])
  }

  /** A label map applied to every block of three bits. */
  function Lift(d: nat, f: ToneLabels, v: Vec): (r: Vec)
    requires |v| == 3 * d && |f| == 8 && forall t | 0 <= t < 8 :: f[t] < 8
    ensures |r| == 3 * d
  {
    seq(3 * d, i requires 0 <= i < 3 * d => LabelBit(f[Block(v, i / 3)], i % 3))
  }

  lemma MappedBlock(tones: seq<nat>, labels: ToneLabels, s: nat)
    requires ValidLabels(labels) && ValidTones(tones) && s < |tones|
    ensures Block(MappedBits(tones, labels), s) == labels[tones[s]]
  {
    var bits := MappedBits(tones, labels);
    assert bits[3 * s] == LabelBit(labels[tones[s]], 0);
    assert bits[3 * s + 1] == LabelBit(labels[tones[s]], 1);
    assert bits[3 * s + 2] == LabelBit(labels[tones[s]], 2);
    LabelRoundTrip(labels[tones[s]]);
  }

  lemma RelabelledBits(d: nat, tones: seq<nat>, f: ToneLabels, labels: ToneLabels)
    requires ValidLabels(f) && ValidLabels(labels) && ValidTones(tones) && |tones| == d
    ensures ValidLabels(Relabel(f, labels))
    ensures MappedBits(tones, Relabel(f, labels)) == Lift(d, f, MappedBits(tones, labels))
  {
    forall i | 0 <= i < 3 * d
      ensures MappedBits(tones, Relabel(f, labels))[i] == Lift(d, f, MappedBits(tones, labels))[i]
    {
      MappedBlock(tones, labels, i / 3);
    }
  }

  lemma LiftXor(d: nat, f: ToneLabels, a: Vec, b: Vec)
    requires LinearOnLabels(f) && |a| == |b| == 3 * d
    ensures Lift(d, f, Xor(a, b)) == Xor(Lift(d, f, a), Lift(d, f, b))
  {
    hide LabelBit, LabelOf, XorLabel, LinearOnLabels;
    LinearAt(f, 0, 0);
    var ab := Xor(a, b);
    forall i | 0 <= i < 3 * d ensures Lift(d, f, ab)[i] == Xor(Lift(d, f, a), Lift(d, f, b))[i] {
      var s, k := i / 3, i % 3;
      XorLabelOf(a[3 * s], a[3 * s + 1], a[3 * s + 2], b[3 * s], b[3 * s + 1], b[3 * s + 2]);
      LinearAt(f, Block(a, s), Block(b, s));
      XorLabelBit(f[Block(a, s)], f[Block(b, s)], k);
    }
  }

  lemma LiftInjective(d: nat, f: ToneLabels, a: Vec, b: Vec)
    requires ValidLabels(f) && |a| == |b| == 3 * d && Lift(d, f, a) == Lift(d, f, b)
    ensures a == b
  {
    hide LabelBit, LabelOf;
    forall i | 0 <= i < 3 * d ensures a[i] == b[i] {
      var s := i / 3;
      var x, y := f[Block(a, s)], f[Block(b, s)];
      forall k | 0 <= k < 3 ensures LabelBit(x, k) == LabelBit(y, k) {
        assert Lift(d, f, a)[3 * s + k] == LabelBit(x, k);
        assert Lift(d, f, b)[3 * s + k] == LabelBit(y, k);
      }
      LabelsDiffer(x, y);
      assert Block(a, s) == Block(b, s);
      LabelOfBits(a[3 * s], a[3 * s + 1], a[3 * s + 2]);
      LabelOfBits(b[3 * s], b[3 * s + 1], b[3 * s + 2]);
    }
  }

  lemma LiftZero(d: nat, f: ToneLabels)
    requires LinearOnLabels(f)
    ensures Lift(d, f, Zero(3 * d)) == Zero(3 * d)
  {
    var z := Zero(3 * d);
    LiftXor(d, f, z, z);
    XorZero(z);
    XorZero(Lift(d, f, z));
  }

  ghost function LiftAll(d: nat, f: ToneLabels, rows: seq<Vec>): (lifted: seq<Vec>)
    requires Uniform(3 * d, rows) && |f| == 8 && forall t | 0 <= t < 8 :: f[t] < 8
    ensures Uniform(3 * d, lifted) && |lifted| == |rows|
  {
    seq(|rows|, i requires 0 <= i < |rows| => Lift(d, f, rows[i]))
  }

  lemma {:induction false} SpanOfLifted(d: nat, f: ToneLabels, rows: seq<Vec>)
    requires LinearOnLabels(f) && Uniform(3 * d, rows)
    ensures forall w :: w in Span(3 * d, LiftAll(d, f, rows)) <==> exists x :: x in Span(3 * d, rows) && Lift(d, f, x) == w
  {
    var n := 3 * d;
    var lifted := LiftAll(d, f, rows);
    if rows == [] {
      LiftZero(d, f);
    } else {
      SpanOfLifted(d, f, rows[1..]);
      assert lifted[1..] == LiftAll(d, f, rows[1..]);
      var r := rows[0];
      forall w ensures w in Span(n, lifted) <==> exists x :: x in Span(n, rows) && Lift(d, f, x) == w {
        if w in Span(n, lifted) {
          if w in Span(n, lifted[1..]) {
            var x :| x in Span(n, rows[1..]) && Lift(d, f, x) == w;
            assert x in Span(n, rows);
          } else {
            var u :| u in Span(n, lifted[1..]) && w == Xor(lifted[0], u);
            var x :| x in Span(n, rows[1..]) && Lift(d, f, x) == u;
            LiftXor(d, f, r, x);
            assert Xor(r, x) in Span(n, rows);
          }
        }
        if x :| x in Span(n, rows) && Lift(d, f, x) == w {
          if x !in Span(n, rows[1..]) {
            var y :| y in Span(n, rows[1..]) && x == Xor(r, y);
            LiftXor(d, f, r, y);
          }
        }
      }
    }
  }

  lemma {:induction false} LiftedSize(d: nat, f: ToneLabels, s: set<Vec>, t: set<Vec>)
    requires ValidLabels(f) && forall x | x in s :: |x| == 3 * d
    requires forall w :: w in t <==> exists x :: x in s && Lift(d, f, x) == w
    ensures |t| == |s|
  {
    if s == {} {
      assert t == {};
    } else {
      var x :| x in s;
      var w := Lift(d, f, x);
      forall u ensures u in t - {w} <==> exists y :: y in s - {x} && Lift(d, f, y) == u {
        if u in t - {w} {
          var y :| y in s && Lift(d, f, y) == u;
          assert y in s - {x};
        }
        if y :| y in s - {x} && Lift(d, f, y) == u {
          if u == w { LiftInjective(d, f, x, y); }
        }
      }
      LiftedSize(d, f, s - {x}, t - {w});
    }
  }

  /** Composing the labels with any invertible linear map on 3-bit labels leaves the rank alone. */
  lemma RelabellingKeepsRank(d: nat, frames: seq<seq<nat>>, f: ToneLabels, labels: ToneLabels)
    requires ValidFrames(d, frames) && ValidLabels(labels) && LinearOnLabels(f)
    ensures ValidLabels(Relabel(f, labels))
    ensures TrueRank(d, frames, Relabel(f, labels)) == TrueRank(d, frames, labels)
  {
    var n := 3 * d;
    var rows, rows' := MappedFrames(d, frames, labels), MappedFrames(d, frames, Relabel(f, labels));
    forall r | 0 <= r < |frames| ensures rows'[r] == Lift(d, f, rows[r]) {
      RelabelledBits(d, frames[r], f, labels);
    }
    assert rows' == LiftAll(d, f, rows);
    SpanOfLifted(d, f, rows);
    LiftedSize(d, f, Span(n, rows), Span(n, rows'));
    RankSize(n, rows);
    RankSize(n, rows');
    Pow2Injective(Rank(n, rows), Rank(n, rows'));
  }

  // ---------------------------------------------------------------- twelve linear maps

  function Scale(bit: bool, value: nat): (r: nat)
    requires value < 8
    ensures r < 8
  {
    if bit then value else 0
  }

  /** The linear map that sends 1, 2 and 4 to the given labels. */
  function LinearMap(f1: nat, f2: nat, f4: nat): (f: ToneLabels)
    requires f1 < 8 && f2 < 8 && f4 < 8
    ensures |f| == 8 && forall a | 0 <= a < 8 :: f[a] < 8
  {
    seq(8, a requires 0 <= a < 8 =>
      XorLabel(XorLabel(Scale(LabelBit(a, 0), f4), Scale(LabelBit(a, 1), f2)), Scale(LabelBit(a, 2), f1)))
  }

  lemma LinearMapBit(f1: nat, f2: nat, f4: nat, a: nat, k: nat)
    requires f1 < 8 && f2 < 8 && f4 < 8 && a < 8 && k < 3
    ensures LabelBit(LinearMap(f1, f2, f4)[a], k)
         == (((LabelBit(a, 0) && LabelBit(f4, k)) != (LabelBit(a, 1) && LabelBit(f2, k))) != (LabelBit(a, 2) && LabelBit(f1, k)))
  {
    var x, y, z := Scale(LabelBit(a, 0), f4), Scale(LabelBit(a, 1), f2), Scale(LabelBit(a, 2), f1);
    XorLabelBit(x, y, k);
    XorLabelBit(XorLabel(x, y), z, k);
    assert !LabelBit(0, k);
  }

  lemma LinearMapAdditive(f1: nat, f2: nat, f4: nat, a: nat, b: nat)
    requires f1 < 8 && f2 < 8 && f4 < 8 && a < 8 && b < 8
    ensures var f := LinearMap(f1, f2, f4); f[XorLabel(a, b)] == XorLabel(f[a], f[b])
  {
    hide LabelBit, XorLabel, LinearMap;
    var f := LinearMap(f1, f2, f4);
    forall k | 0 <= k < 3 ensures LabelBit(f[XorLabel(a, b)], k) == LabelBit(XorLabel(f[a], f[b]), k) {
      LinearMapBit(f1, f2, f4, XorLabel(a, b), k);
      LinearMapBit(f1, f2, f4, a, k);
      LinearMapBit(f1, f2, f4, b, k);
      XorLabelBit(f[a], f[b], k);
      XorLabelBit(a, b, 0);
      XorLabelBit(a, b, 1);
      XorLabelBit(a, b, 2);
    }
    LabelsDiffer(f[XorLabel(a, b)], XorLabel(f[a], f[b]));
  }

  lemma XorLabelZero(a: nat, b: nat)
    requires a < 8 && b < 8
    ensures XorLabel(a, b) == 0 <==> a == b
  {
    if XorLabel(a, b) == 0 {
      forall k | 0 <= k < 3 ensures LabelBit(a, k) == LabelBit(b, k) {
        XorLabelBit(a, b, k);
      }
      LabelsDiffer(a, b);
    }
  }

  /** A linear map with no nonzero label sent to zero is one of the relabellings. */
  lemma LinearMapInvertible(f1: nat, f2: nat, f4: nat)
    requires f1 < 8 && f2 < 8 && f4 < 8
    requires forall a | 0 < a < 8 :: LinearMap(f1, f2, f4)[a] != 0
    ensures LinearOnLabels(LinearMap(f1, f2, f4))
  {
    var f := LinearMap(f1, f2, f4);
    forall a, b | 0 <= a < 8 && 0 <= b < 8 ensures f[XorLabel(a, b)] == XorLabel(f[a], f[b]) {
      LinearMapAdditive(f1, f2, f4, a, b);
    }
    forall a, b | 0 <= a < b < 8 ensures f[a] != f[b] {
      XorLabelZero(a, b);
      XorLabelZero(f[a], f[b]);
      assert f[XorLabel(a, b)] != 0;
    }
  }

  /** Twelve of the 168 invertible maps: 1 stays, 2 goes to 2, 3 or 4, and 4 to a label outside
      what those two span. */
  function ImageOf2(k: nat): nat
    requires k < 12
  {
    2 + k / 4
  }

  function ImageOf4(k: nat): nat
    requires k < 12
  {
    if k < 8 then 4 + k % 4 else if k < 10 then k - 6 else k - 4
  }

  function TwelveMaps(k: nat): (f: ToneLabels)
    requires k < 12
    ensures |f| == 8 && forall a | 0 <= a < 8 :: f[a] < 8
  {
    LinearMap(1, ImageOf2(k), ImageOf4(k))
  }

  lemma TwelveMapsLinear(k: nat)
    requires k < 12
    ensures LinearOnLabels(TwelveMaps(k))
  {
    hide LabelBit, LinearMap;
    var p, q := ImageOf2(k), ImageOf4(k);
    LabelBitCases(0);
    LabelBitCases(1);
    LabelBitCases(p);
    LabelBitCases(q);
    forall a | 0 < a < 8 ensures LinearMap(1, p, q)[a] != 0 {
      LabelBitCases(a);
      LinearMapBit(1, p, q, a, 0);
      LinearMapBit(1, p, q, a, 1);
      LinearMapBit(1, p, q, a, 2);
    }
    LinearMapInvertible(1, p, q);
  }

  lemma LinearMapAt(f1: nat, f2: nat, f4: nat)
    requires f1 < 8 && f2 < 8 && f4 < 8
    ensures LinearMap(f1, f2, f4)[2] == f2 && LinearMap(f1, f2, f4)[4] == f4
  {
    hide LabelBit, LinearMap;
    LabelBitCases(2);
    LabelBitCases(4);
    var f := LinearMap(f1, f2, f4);
    forall k | 0 <= k < 3 ensures LabelBit(f[2], k) == LabelBit(f2, k) && LabelBit(f[4], k) == LabelBit(f4, k) {
      LinearMapBit(f1, f2, f4, 2, k);
      LinearMapBit(f1, f2, f4, 4, k);
    }
    LabelsDiffer(f[2], f2);
    LabelsDiffer(f[4], f4);
  }

  lemma TwelveRelabellingsDiffer(labels: ToneLabels, j: nat, k: nat)
    requires ValidLabels(labels) && j < k < 12
    ensures Relabel(TwelveMaps(j), labels) != Relabel(TwelveMaps(k), labels)
  {
    hide LinearMap;
    LinearMapAt(1, ImageOf2(j), ImageOf4(j));
    LinearMapAt(1, ImageOf2(k), ImageOf4(k));
    var t2 := LabelUsed(labels, 2);
    var t4 := LabelUsed(labels, 4);
    assert Relabel(TwelveMaps(j), labels)[t2] == ImageOf2(j) && Relabel(TwelveMaps(k), labels)[t2] == ImageOf2(k);
    assert Relabel(TwelveMaps(j), labels)[t4] == ImageOf4(j) && Relabel(TwelveMaps(k), labels)[t4] == ImageOf4(k);
  }

  // ---------------------------------------------------------------- the label search

  datatype Result = Result(rank: nat, labels: ToneLabels)

  function RankKey(): Result -> nat {
    (r: Result) => r.rank
  }

  const KEPT := 12

  /** The empty slots the kept list starts with. */
  function EmptySlots(d: nat): (slots: seq<Result>)
    ensures |slots| == KEPT
  {
    seq(KEPT, _ => Result(3 * d + 1, [0, 0, 0, 0, 0, 0, 0, 0]))
  }

  /** The empty slots, then the first k label orders with their true ranks: what an exhaustive
      search without any cutoff would look at. */
  ghost function Candidates(d: nat, frames: seq<seq<nat>>, order: seq<ToneLabels>, k: nat): (all: seq<Result>)
    requires ValidFrames(d, frames) && k <= |order|
    requires forall i | 0 <= i < |order| :: ValidLabels(order[i])
    ensures |all| == KEPT + k
  {
    EmptySlots(d) + seq(k, i requires 0 <= i < k => Result(TrueRank(d, frames, order[i]), order[i]))
  }

  lemma CandidatesStep(d: nat, frames: seq<seq<nat>>, order: seq<ToneLabels>, k: nat)
    requires ValidFrames(d, frames) && k < |order|
    requires forall i | 0 <= i < |order| :: ValidLabels(order[i])
    ensures Candidates(d, frames, order, k + 1)
         == Candidates(d, frames, order, k) + [Result(TrueRank(d, frames, order[k]), order[k])]
  {
    hide TrueRank;
  }

  lemma EmptySlotsSmallest(d: nat)
    ensures Smallest(RankKey(), EmptySlots(d), EmptySlots(d))
  {
    assert Splits(RankKey(), EmptySlots(d), [], EmptySlots(d));
  }

  lemma TrueRankAtMost(d: nat, frames: seq<seq<nat>>, labels: ToneLabels)
    requires ValidFrames(d, frames) && ValidLabels(labels)
    ensures TrueRank(d, frames, labels) <= 3 * d
  {
    hide Rank, MappedFrames;
    RankAtMostLength(3 * d, MappedFrames(d, frames, labels));
  }

  /** One label order: it replaces the last of the twelve when its rank is less, and they are sorted. */
  function TakeResult(sort: seq<Result> -> seq<Result>, best: seq<Result>, x: Result): seq<Result> {
    if best != [] && x.rank < best[|best| - 1].rank then sort(best[|best| - 1 := x]) else best
  }

  /** What an exhaustive search without any cutoff keeps of the first k label orders. */
  ghost function KeptOf(d: nat, frames: seq<seq<nat>>, order: seq<ToneLabels>, sort: seq<Result> -> seq<Result>, k: nat): seq<Result>
    requires ValidFrames(d, frames) && k <= |order|
    requires forall i | 0 <= i < |order| :: ValidLabels(order[i])
  {
    if k == 0 then EmptySlots(d)
    else TakeResult(sort, KeptOf(d, frames, order, sort, k - 1), Result(TrueRank(d, frames, order[k - 1]), order[k - 1]))
  }

  lemma NoCandidates(d: nat, frames: seq<seq<nat>>, order: seq<ToneLabels>)
    requires ValidFrames(d, frames) && forall i | 0 <= i < |order| :: ValidLabels(order[i])
    ensures Candidates(d, frames, order, 0) == EmptySlots(d)
  {
  }

  /** What is kept are twelve smallest ranks, for every conforming sort. */
  lemma {:induction false} KeptAreSmallest(d: nat, frames: seq<seq<nat>>, order: seq<ToneLabels>,
                                           sort: seq<Result> -> seq<Result>, k: nat)
    requires ValidFrames(d, frames) && k <= |order| && Conforms(LessBy(RankKey()), sort)
    requires forall i | 0 <= i < |order| :: ValidLabels(order[i])
    ensures |KeptOf(d, frames, order, sort, k)| == 12
    ensures Smallest(RankKey(), KeptOf(d, frames, order, sort, k), Candidates(d, frames, order, k))
  {
    hide Conforms, Smallest, TrueRank, Candidates;
    if k == 0 {
      EmptySlotsSmallest(d);
      NoCandidates(d, frames, order);
    } else {
      KeptAreSmallest(d, frames, order, sort, k - 1);
      CandidatesStep(d, frames, order, k - 1);
      var best, all := KeptOf(d, frames, order, sort, k - 1), Candidates(d, frames, order, k - 1);
      var x := Result(TrueRank(d, frames, order[k - 1]), order[k - 1]);
      if x.rank < best[11].rank {
        Replace(RankKey(), sort, best, all, x);
      } else {
        Skip(RankKey(), best, all, x);
      }
    }
  }

  lemma NothingKeptYet(d: nat, frames: seq<seq<nat>>, order: seq<ToneLabels>, sort: seq<Result> -> seq<Result>)
    requires ValidFrames(d, frames) && forall i | 0 <= i < |order| :: ValidLabels(order[i])
    ensures KeptOf(d, frames, order, sort, 0) == EmptySlots(d)
  {
  }

  lemma KeptOfStep(d: nat, frames: seq<seq<nat>>, order: seq<ToneLabels>, sort: seq<Result> -> seq<Result>, k: nat)
    requires ValidFrames(d, frames) && k < |order|
    requires forall i | 0 <= i < |order| :: ValidLabels(order[i])
    ensures KeptOf(d, frames, order, sort, k + 1)
         == TakeResult(sort, KeptOf(d, frames, order, sort, k), Result(TrueRank(d, frames, order[k]), order[k]))
  {
    hide TrueRank, TakeResult;
  }

  /** Of label orders of equal rank the earlier ones stay; a lesser rank takes the place of the last. */
  lemma LateTiesAreDropped(d: nat, frames: seq<seq<nat>>, order: seq<ToneLabels>, sort: seq<Result> -> seq<Result>, k: nat)
    requires ValidFrames(d, frames) && k < |order| && Conforms(LessBy(RankKey()), sort)
    requires forall i | 0 <= i < |order| :: ValidLabels(order[i])
    ensures |KeptOf(d, frames, order, sort, k)| == 12
    ensures var best, rank := KeptOf(d, frames, order, sort, k), TrueRank(d, frames, order[k]);
      KeptOf(d, frames, order, sort, k + 1) ==
        if rank >= best[11].rank then best else sort(best[11 := Result(rank, order[k])])
  {
    hide Conforms, TrueRank, KeptOf;
    KeptAreSmallest(d, frames, order, sort, k);
    KeptOfStep(d, frames, order, sort, k);
  }

  /** The pruned search: each label order is ranked only up to the worst rank kept so far. It keeps
      exactly what an exhaustive search without pruning keeps, in the same order. */
  method SearchLabels(d: nat, frames: seq<seq<nat>>, order: seq<ToneLabels>, sort: seq<Result> -> seq<Result>)
    returns (best: array<Result>)
    requires ValidFrames(d, frames)
    requires forall i | 0 <= i < |order| :: ValidLabels(order[i])
    requires Conforms(LessBy(RankKey()), sort)
    ensures fresh(best) && best.Length == 12
    ensures best[..] == KeptOf(d, frames, order, sort, |order|)
    ensures Smallest(RankKey(), best[..], Candidates(d, frames, order, |order|))
  {
    hide Conforms, Smallest, TrueRank, CutoffRank, Candidates, KeptOf;
    var n := 3 * d;
    NothingKeptYet(d, frames, order, sort);
    best := new Result[KEPT](_ => Result(n + 1, [0, 0, 0, 0, 0, 0, 0, 0]));
    assert best[..] == EmptySlots(d);
    for k := 0 to |order|
      invariant best[..] == KeptOf(d, frames, order, sort, k)
    {
      var labels := order[k];
      TrueRankAtMost(d, frames, labels);
      KeptAreSmallest(d, frames, order, sort, k + 1);
      KeptOfStep(d, frames, order, sort, k);
      var worst := best[KEPT - 1].rank;
      var cutoff := if worst <= n then worst else n;
      PruningIsExact(d, frames, labels, cutoff);
      var rank := MappedRank(d, frames, labels, cutoff);
      var candidate := Result(rank, labels);
      if candidate.rank < best[KEPT - 1].rank {
        ghost var before := best[..];
        best[KEPT - 1] := candidate;
        assert best[..] == before[KEPT - 1 := candidate];
        var sorted := sort(best[..]);
        assert sorted == KeptOf(d, frames, order, sort, k + 1);
        forall i | 0 <= i < KEPT { best[i] := sorted[i]; }
        assert best[..] == sorted;
      }
    }
    KeptAreSmallest(d, frames, order, sort, |order|);
  }

  lemma CandidateAt(d: nat, frames: seq<seq<nat>>, order: seq<ToneLabels>, p: nat)
    requires ValidFrames(d, frames) && p < KEPT + |order|
    requires forall i | 0 <= i < |order| :: ValidLabels(order[i])
    ensures p < KEPT ==> Candidates(d, frames, order, |order|)[p].rank == 3 * d + 1
    ensures p >= KEPT ==> Candidates(d, frames, order, |order|)[p] == Result(TrueRank(d, frames, order[p - KEPT]), order[p - KEPT])
  {
    hide TrueRank;
  }

  lemma CandidateListed(d: nat, frames: seq<seq<nat>>, order: seq<ToneLabels>, labels: ToneLabels)
    requires ValidFrames(d, frames) && Enumerates(order) && ValidLabels(labels)
    ensures Result(TrueRank(d, frames, labels), labels) in Candidates(d, frames, order, |order|)
  {
    hide TrueRank, Candidates;
    var i :| 0 <= i < |order| && order[i] == labels;
    CandidateAt(d, frames, order, KEPT + i);
  }

  /** The first kept entry is a real label order with its true rank, not an empty slot. */
  lemma LeastLabels(d: nat, frames: seq<seq<nat>>, order: seq<ToneLabels>, best: seq<Result>) returns (labels: ToneLabels)
    requires ValidFrames(d, frames) && Enumerates(order) && |best| == KEPT
    requires Smallest(RankKey(), best, Candidates(d, frames, order, |order|))
    ensures ValidLabels(labels) && best[0] == Result(TrueRank(d, frames, labels), labels)
  {
    hide TrueRank, Candidates, Smallest;
    var all := Candidates(d, frames, order, |order|);
    var identity: ToneLabels := [0, 1, 2, 3, 4, 5, 6, 7];
    assert ValidLabels(identity);
    CandidateListed(d, frames, order, identity);
    FirstIsMinimum(RankKey(), best, all, Result(TrueRank(d, frames, identity), identity));
    TrueRankAtMost(d, frames, identity);
    var p := KeptWasSeen(RankKey(), best, all, 0);
    CandidateAt(d, frames, order, p);
    labels := order[p - KEPT];
  }

  /** The twelve entries kept always have equal rank, the least of all: rank alone can never tell
      them apart. */
  lemma KeptRanksAreEqual(d: nat, frames: seq<seq<nat>>, order: seq<ToneLabels>, best: seq<Result>)
    requires ValidFrames(d, frames) && Enumerates(order) && |best| == KEPT
    requires Smallest(RankKey(), best, Candidates(d, frames, order, |order|))
    ensures forall i | 0 <= i < KEPT :: best[i].rank == best[0].rank <= 3 * d
    ensures forall labels | ValidLabels(labels) :: best[0].rank <= TrueRank(d, frames, labels)
  {
    hide Smallest, TrueRank, TwelveMaps, Relabel, LinearOnLabels, Candidates;
    var all := Candidates(d, frames, order, |order|);
    forall labels | ValidLabels(labels)
      ensures Result(TrueRank(d, frames, labels), labels) in all && best[0].rank <= TrueRank(d, frames, labels)
    {
      CandidateListed(d, frames, order, labels);
      FirstIsMinimum(RankKey(), best, all, Result(TrueRank(d, frames, labels), labels));
    }
    forall x | x in all ensures best[0].rank <= x.rank {
      FirstIsMinimum(RankKey(), best, all, x);
    }
    var labels := LeastLabels(d, frames, order, best);
    var list: seq<Result> := seq(12, k requires 0 <= k < 12 => Result(best[0].rank, Relabel(TwelveMaps(k), labels)));
    forall j, k | 0 <= j < k < 12 ensures list[j] != list[k] {
      TwelveRelabellingsDiffer(labels, j, k);
    }
    ElementsExactly(list);
    forall x | x in list ensures x in all && x.rank == best[0].rank {
      var k :| 0 <= k < 12 && list[k] == x;
      TwelveMapsLinear(k);
      RelabellingKeepsRank(d, frames, TwelveMaps(k), labels);
    }
    EnoughTies(RankKey(), best, all, (set x | x in list), best[0].rank);
    TrueRankAtMost(d, frames, labels);
  }
}
