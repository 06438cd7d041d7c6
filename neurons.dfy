/**
 * The single neuron that drives a bird: four weights, restarted at random or nudged toward
 * the weights of a reference bird once per generation. The random draws are parameters.
 */
module Neurons {
  import opened Wrappers

  /** Number of inputs, and so of weights. */
  const InputCount: nat := 4
  /** `learning_rate`: the share of the distance to the reference weight taken per correction. */
  const LearningRate: real := 0.2
  /** `random`: a branch draw above this restarts the weights instead of imitating. */
  const Exploration: real := 0.9
  /** A sign draw above this flips the sign of the new weight. */
  const SignFlip: real := 0.5

  /** The range of one uniform draw, `[0, 1)`. */
  predicate IsUnitDraw(x: real) {
    0.0 <= x < 1.0
  }

  /** One magnitude draw and one sign draw for each of the four weights. */
  predicate WellFormedDraws(magnitudes: seq<real>, signs: seq<real>) {
    |magnitudes| == InputCount && |signs| == InputCount &&
    forall i :: 0 <= i < InputCount ==> IsUnitDraw(magnitudes[i]) && IsUnitDraw(signs[i])
  }

  /** The draws one call of `correct` may consume: the branch draw, then the restart draws. */
  datatype Draw = Draw(branch: real, magnitudes: seq<real>, signs: seq<real>)

  predicate WellFormed(d: Draw) {
    IsUnitDraw(d.branch) && WellFormedDraws(d.magnitudes, d.signs)
  }

  /** Every weight lies in `[-1, 1]`. */
  predicate UnitBounded(w: seq<real>) {
    forall i :: 0 <= i < |w| ==> -1.0 <= w[i] <= 1.0
  }

  /** One restarted weight: the magnitude draw, negated when the sign draw is above one half. */
  function Signed(magnitude: real, sign: real): real {
    if sign > SignFlip then -magnitude else magnitude
  }

  /** The weights after a restart from the given draws. */
  function Restarted(magnitudes: seq<real>, signs: seq<real>): (w: seq<real>)
    requires WellFormedDraws(magnitudes, signs)
    ensures |w| == InputCount && UnitBounded(w)
    ensures forall i :: 0 <= i < InputCount ==>
              (w[i] == magnitudes[i] || w[i] == -magnitudes[i]) &&
              (w[i] < 0.0 ==> signs[i] > SignFlip) && (signs[i] > SignFlip ==> w[i] <= 0.0)
  {
    seq(InputCount, i requires 0 <= i < InputCount => Signed(magnitudes[i], signs[i]))
  }

  /** The weights after one imitation step toward `target`. */
  function Imitated(w: seq<real>, target: seq<real>): (r: seq<real>)
    requires |target| == |w|
    ensures |r| == |w|
    ensures forall i :: 0 <= i < |w| ==>
              r[i] - w[i] == (target[i] - w[i]) * LearningRate &&
              (w[i] <= target[i] ==> w[i] <= r[i] <= target[i]) &&
              (target[i] <= w[i] ==> target[i] <= r[i] <= w[i])
  {
    seq(|w|, i requires 0 <= i < |w| => w[i] + (target[i] - w[i]) * LearningRate)
  }

  /** Whether `correct` takes the imitation branch rather than the restart branch. */
  predicate Imitates(reference: Option<seq<real>>, d: Draw) {
    !(d.branch > Exploration || reference.None?)
  }

  /** The weights after `correct`, given the reference bird's weights (if any) and the draws. */
  function Corrected(w: seq<real>, reference: Option<seq<real>>, d: Draw): (r: seq<real>)
    requires |w| == InputCount && WellFormed(d)
    requires reference.Some? ==> |reference.value| == InputCount
    ensures |r| == InputCount
    ensures !Imitates(reference, d) ==> UnitBounded(r)
    ensures UnitBounded(w) && (reference.Some? ==> UnitBounded(reference.value)) ==> UnitBounded(r)
  {
    if Imitates(reference, d) then Imitated(w, reference.value)
    else Restarted(d.magnitudes, d.signs)
  }

  /** Imitating oneself leaves every weight where it was. */
  lemma ImitatingSelfIsIdentity(w: seq<real>)
    ensures Imitated(w, w) == w
  {
    assert forall i :: 0 <= i < |w| ==> Imitated(w, w)[i] == w[i];
  }

  /** The worked example: from all zeros toward `[1, 0, 0, 0]` the first weight becomes 0.2. */
  lemma ImitationExample()
    ensures Imitated([0.0, 0.0, 0.0, 0.0], [1.0, 0.0, 0.0, 0.0]) == [0.2, 0.0, 0.0, 0.0]
  {
    var r := Imitated([0.0, 0.0, 0.0, 0.0], [1.0, 0.0, 0.0, 0.0]);
    assert r[0] == 0.2 && r[1] == 0.0 && r[2] == 0.0 && r[3] == 0.0;
  }

  class Neuron {
    /** The weight vector, a fixed buffer of four reals changed in place. */
    const weights: array<real>

    /** `Neuron.__init__`: zeroed weights, then one restart. */
    constructor (magnitudes: seq<real>, signs: seq<real>)
      requires WellFormedDraws(magnitudes, signs)
      ensures fresh(weights) && weights.Length == InputCount
      ensures weights[..] == Restarted(magnitudes, signs)
    {
      weights := new real[InputCount];
      new;
      Restart(magnitudes, signs);
    }

    /** The restart loop shared by `__init__` and the restart branch of `correct`. */
    method Restart(magnitudes: seq<real>, signs: seq<real>)
      requires weights.Length == InputCount && WellFormedDraws(magnitudes, signs)
      modifies weights
      ensures weights[..] == Restarted(magnitudes, signs)
    {
      for i := 0 to InputCount
        invariant forall j :: 0 <= j < i ==> weights[j] == Signed(magnitudes[j], signs[j])
      {
        weights[i] := magnitudes[i];
        if signs[i] > SignFlip {
          weights[i] := weights[i] * -1.0;
        }
      }
    }

    /**
     * `Neuron.correct`: restart, or move each weight a fifth of the way toward the reference
     * neuron's weight. The reference may be this very neuron; each weight is read before it
     * is written, so the result only depends on the weights before the call.
     */
    method Correct(reference: Neuron?, d: Draw)
      requires weights.Length == InputCount && WellFormed(d)
      requires reference != null ==> reference.weights.Length == InputCount
      modifies weights
      ensures weights[..] == Corrected(old(weights[..]),
                                       if reference == null then None else Some(old(reference.weights[..])), d)
    {
      if d.branch > Exploration || reference == null {
        Restart(d.magnitudes, d.signs);
      } else {
        for i := 0 to weights.Length
          invariant forall j :: 0 <= j < i ==>
                      weights[j] == old(weights[j]) + (old(reference.weights[j]) - old(weights[j])) * LearningRate
          invariant forall j :: i <= j < InputCount ==>
                      weights[j] == old(weights[j]) && reference.weights[j] == old(reference.weights[j])
        {
          weights[i] := weights[i] + (reference.weights[i] - weights[i]) * LearningRate;
        }
      }
    }
  }
}
