/** Label selection: the classifier's score vector is mapped to a class name
    by `class_names[np.argmax(scores)]`. */
module Labels {
  import opened Wrappers

  /** The fixed class order `class_names`. */
  const ClassNames: seq<string> := ["benign", "malignant", "normal"]

  /** `k` is the first position holding the largest score: every score is at
      most `xs[k]` and every score before `k` is strictly smaller. */
  ghost predicate IsFirstMax(xs: seq<real>, k: nat)
  {
    && k < |xs|
    && (forall j :: 0 <= j < |xs| ==> xs[j] <= xs[k])
    && (forall j :: 0 <= j < k ==> xs[j] < xs[k])
  }

  /** `np.argmax` on a one-dimensional array: a left-to-right scan that moves
      to a later position only on a strictly larger value, so ties go to the
      first occurrence. */
  function ArgMax(xs: seq<real>): (k: nat)
    requires |xs| > 0
    ensures IsFirstMax(xs, k)
  {
    if |xs| == 1 then 0
    else
      var k := ArgMax(xs[..|xs| - 1]);
      if xs[|xs| - 1] > xs[k] then |xs| - 1 else k
  }

  /** There is only one first maximum, so the scan's answer is the unique one
      the reference predicate allows. */
  lemma FirstMaxUnique(xs: seq<real>, i: nat, j: nat)
    requires IsFirstMax(xs, i) && IsFirstMax(xs, j)
    ensures i == j
  {
    assert xs[i] == xs[j];
  }

  /** `ArgMax` returns exactly the first maximum, in both directions. */
  lemma ArgMaxIsFirstMax(xs: seq<real>, k: nat)
    requires |xs| > 0
    ensures ArgMax(xs) == k <==> IsFirstMax(xs, k)
  {
    if IsFirstMax(xs, k) {
      FirstMaxUnique(xs, ArgMax(xs), k);
    }
  }

  /** Why `class_names[np.argmax(scores)]` can fail: numpy refuses an empty
      array, and a position past the class list raises an index error. */
  datatype LabelError = EmptyScores | IndexOutOfRange(index: nat)

  /** `class_names[np.argmax(scores)]`, with the two exceptions it can raise
      returned as errors. */
  function SelectLabel(scores: seq<real>): (r: Result<string, LabelError>)
    ensures r == Err(EmptyScores) <==> |scores| == 0
    ensures r.Ok? ==> r.value in ClassNames
    ensures r.Ok? ==> exists k: nat :: IsFirstMax(scores, k) && k < |ClassNames| && ClassNames[k] == r.value
    ensures r.Err? && r.error.IndexOutOfRange? ==> |scores| > |ClassNames| && IsFirstMax(scores, r.error.index)
    ensures r.Err? && r.error.IndexOutOfRange? ==> r.error.index >= |ClassNames|
  {
    if |scores| == 0 then Err(EmptyScores)
    else
      var k := ArgMax(scores);
      if k < |ClassNames| then Ok(ClassNames[k]) else Err(IndexOutOfRange(k))
  }

  /** A three-score vector, the classifier's output shape, always yields one
      of the three labels. */
  lemma ThreeScoresAlwaysLabelled(scores: seq<real>)
    requires |scores| == 3
    ensures SelectLabel(scores).Ok?
    ensures SelectLabel(scores).value in {"benign", "malignant", "normal"}
  {
  }

  /** The complete decision table for three scores, ties going to the class
      listed first. */
  lemma ThreeScoresDecision(scores: seq<real>)
    requires |scores| == 3
    ensures SelectLabel(scores) == Ok("benign") <==> scores[0] >= scores[1] && scores[0] >= scores[2]
    ensures SelectLabel(scores) == Ok("malignant") <==> scores[1] > scores[0] && scores[1] >= scores[2]
    ensures SelectLabel(scores) == Ok("normal") <==> scores[2] > scores[0] && scores[2] > scores[1]
  {
    var k := ArgMax(scores);
    assert ClassNames[0] == "benign" && ClassNames[1] == "malignant" && ClassNames[2] == "normal";
    assert "benign" != "malignant" && "benign" != "normal" && "malignant" != "normal";
  }

  /** Equal scores select the first class. */
  lemma AllEqualIsBenign(x: real)
    ensures SelectLabel([x, x, x]) == Ok("benign")
  {
    ThreeScoresDecision([x, x, x]);
  }
}
