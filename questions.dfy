/**
 * Questions as loaded from questions.json, the option filter both pages
 * apply when rendering, and the shuffle-and-slice sampling of a bank.
 */
module Questions {
  import opened Wrappers
  import opened Text

  /** One bank entry. An option is None where the JSON holds null (or the
      entry is missing); correctIndex is whatever number the JSON holds. */
  datatype Question = Question(prompt: string, options: seq<Option<string>>, correctIndex: int)

  // ---- option filter (renderExam) --------------------------------------

  /** An option gets a radio button when it is not null and holds a
      character other than white space. */
  predicate IsShown(opt: Option<string>) {
    opt.Some? && HasVisibleChar(opt.value)
  }

  /** IsShown is the pages' own test: `!optText || !optText.trim()` skips
      exactly the options IsShown rejects. */
  lemma ShownIffTrimmedNonEmpty(opt: Option<string>)
    ensures IsShown(opt) <==> opt.Some? && Trim(opt.value) != ""
  {
    if opt.Some? {
      TrimEmptyIffAllSpace(opt.value);
      VisibleIffNotAllSpace(opt.value);
    }
  }

  /** The radio values rendered for the options from position `from` on. */
  function ShownFrom(options: seq<Option<string>>, from: nat): (r: seq<nat>)
    requires from <= |options|
    ensures forall k :: 0 <= k < |r| ==> from <= r[k] < |options| && IsShown(options[r[k]])
    ensures forall i :: from <= i < |options| && IsShown(options[i]) ==> i in r
    ensures forall k, l :: 0 <= k < l < |r| ==> r[k] < r[l]
    decreases |options| - from
  {
    if from == |options| then []
    else
      var rest := ShownFrom(options, from + 1);
      if IsShown(options[from]) then
        var r := [from] + rest;
        assert forall k :: 1 <= k < |r| ==> r[k] == rest[k - 1];
        r
      else rest
  }

  /** The option indices a test-taker can select: every shown position, each
      keeping its original index as its radio value, in ascending order. */
  function SelectableOptions(options: seq<Option<string>>): (r: seq<nat>)
    ensures forall k :: 0 <= k < |r| ==> r[k] < |options| && IsShown(options[r[k]])
    ensures forall i :: 0 <= i < |options| && IsShown(options[i]) ==> i in r
    ensures forall k, l :: 0 <= k < l < |r| ==> r[k] < r[l]
  {
    ShownFrom(options, 0)
  }

  // ---- sampling (pickRandomQuestions / prepareExam) --------------------

  /** perm lists every index below n exactly once: the order a sort of an
      n-element copy happened to produce. */
  predicate IsPermutation(perm: seq<nat>, n: nat) {
    |perm| == n &&
    (forall i :: 0 <= i < n ==> perm[i] < n) &&
    (forall i, j :: 0 <= i < j < n ==> perm[i] != perm[j])
  }

  /** The elements of s at the positions idx, in the order of idx. */
  function Pick<T>(s: seq<T>, idx: seq<nat>): (r: seq<T>)
    requires forall k :: 0 <= k < |idx| ==> idx[k] < |s|
    ensures |r| == |idx|
    ensures forall k :: 0 <= k < |idx| ==> r[k] == s[idx[k]]
  {
    seq(|idx|, k requires 0 <= k < |idx| => s[idx[k]])
  }

  /** The shuffled copy `bank.slice().sort(random)`: the bank reordered by perm. */
  function Shuffle<T>(bank: seq<T>, perm: seq<nat>): seq<T>
    requires IsPermutation(perm, |bank|)
  {
    Pick(bank, perm)
  }

  /** Math.min on the sampling bound. */
  function Min(a: int, b: int): (r: int)
    ensures r <= a && r <= b
    ensures r == a || r == b
  {
    if a <= b then a else b
  }

  /** The first min(count, |bank|) entries of the shuffled copy. */
  function Sample<T>(bank: seq<T>, perm: seq<nat>, count: nat): (r: seq<T>)
    requires IsPermutation(perm, |bank|)
    ensures |r| == Min(count, |bank|)
    ensures multiset(r) <= multiset(bank)
    ensures forall q :: q in r ==> q in bank
  {
    var r := Shuffle(bank, perm)[..Min(count, |bank|)];
    assert r == Pick(bank, perm[..Min(count, |bank|)]);
    PickDistinct(bank, perm[..Min(count, |bank|)]);
    assert forall q :: q in r ==> q in multiset(bank);
    r
  }

  lemma PickConcat<T>(s: seq<T>, a: seq<nat>, b: seq<nat>)
    requires forall k :: 0 <= k < |a| ==> a[k] < |s|
    requires forall k :: 0 <= k < |b| ==> b[k] < |s|
    ensures Pick(s, a + b) == Pick(s, a) + Pick(s, b)
  {
  }

  /** Positions that all lie in a prefix read the same from the prefix. */
  lemma PickFromPrefix<T>(s: seq<T>, p: nat, idx: seq<nat>)
    requires p <= |s|
    requires forall k :: 0 <= k < |idx| ==> idx[k] < p
    ensures Pick(s, idx) == Pick(s[..p], idx)
  {
  }

  /** Dropping one entry of a list of distinct positions below p + 1, the one
      equal to p, leaves distinct positions below p. */
  lemma DropPosition(idx: seq<nat>, k: nat, p: nat)
    requires k < |idx| && idx[k] == p
    requires forall m :: 0 <= m < |idx| ==> idx[m] <= p
    requires forall m, n :: 0 <= m < n < |idx| ==> idx[m] != idx[n]
    ensures var rest := idx[..k] + idx[k + 1..];
      (forall m :: 0 <= m < |rest| ==> rest[m] < p) &&
      (forall m, n :: 0 <= m < n < |rest| ==> rest[m] != rest[n])
  {
    var rest := idx[..k] + idx[k + 1..];
    forall m | 0 <= m < |rest| ensures rest[m] == idx[if m < k then m else m + 1] {
    }
  }

  /** Reading the last position of s once, among other positions below it,
      contributes that last element once. */
  lemma PickLastOnce<T>(s: seq<T>, idx: seq<nat>, k: nat)
    requires |s| > 0 && k < |idx| && idx[k] == |s| - 1
    requires forall m :: 0 <= m < |idx| ==> idx[m] < |s|
    requires forall m :: 0 <= m < |idx| && m != k ==> idx[m] < |s| - 1
    ensures multiset(Pick(s, idx)) == multiset(Pick(s[..|s| - 1], idx[..k] + idx[k + 1..])) + multiset{s[|s| - 1]}
  {
    var p := |s| - 1;
    var front, back := idx[..k], idx[k + 1..];
    assert forall m :: 0 <= m < |front| ==> front[m] == idx[m];
    assert forall m :: 0 <= m < |back| ==> back[m] == idx[k + 1 + m];
    var rest := front + back;
    assert forall m :: 0 <= m < |rest| ==> rest[m] < p;
    PickConcat(s, front, back);
    PickFromPrefix(s, p, rest);
    PickConcat(s, [p], back);
    PickConcat(s, front, [p] + back);
    assert idx == front + ([p] + back);
    assert Pick(s, [p]) == [s[p]];
  }

  /** Reading distinct positions never yields an element more often than
      the sequence holds it. */
  lemma {:induction false} PickDistinct<T>(s: seq<T>, idx: seq<nat>)
    requires forall k :: 0 <= k < |idx| ==> idx[k] < |s|
    requires forall k, l :: 0 <= k < l < |idx| ==> idx[k] != idx[l]
    ensures multiset(Pick(s, idx)) <= multiset(s)
    decreases |s|
  {
    if |idx| > 0 {
      assert idx[0] < |s|;
      var p := |s| - 1;
      assert s == s[..p] + [s[p]];
      if k :| 0 <= k < |idx| && idx[k] == p {
        DropPosition(idx, k, p);
        PickLastOnce(s, idx, k);
        PickDistinct(s[..p], idx[..k] + idx[k + 1..]);
      } else {
        PickFromPrefix(s, p, idx);
        PickDistinct(s[..p], idx);
      }
    }
  }

  /** Sorting a copy only reorders: the shuffled copy holds exactly the
      bank's questions, each as often as the bank does. */
  lemma ShuffleIsPermutation<T>(bank: seq<T>, perm: seq<nat>)
    requires IsPermutation(perm, |bank|)
    ensures multiset(Shuffle(bank, perm)) == multiset(bank)
  {
    PickDistinct(bank, perm);
    var d := multiset(bank) - multiset(Shuffle(bank, perm));
    assert |multiset(bank)| == |multiset(Shuffle(bank, perm))| + |d|;
  }
}
