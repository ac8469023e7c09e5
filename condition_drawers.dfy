/**
 * The inspector panel of a randomizer condition: three integer fields whose
 * entered values are written back to the evaluator, with the bounds accepted
 * only as a proper range and the threshold clamped into that range.
 */
module ConditionDrawers {

  import opened Targets
  import opened Conditions

  /**
   * The edit the panel applies to an evaluator, given the three entered
   * values, and whether it reports a change.
   */
  function DrawRandomizer(r: RandomizerData, min: int, max: int, val: int): (RandomizerData, bool) {
    var accept := min < max;
    var bounds := if accept then r.(minValue := min, maxValue := max) else r;
    var changed := (accept && (r.minValue != min || r.maxValue != max)) || val != r.valueChecked;
    var threshold :=
      if val <= bounds.maxValue then (if val >= bounds.minValue then val else bounds.minValue)
      else bounds.maxValue;
    (bounds.(valueChecked := threshold), changed)
  }

  /** Bounds in order with the threshold between them. */
  predicate Settled(r: RandomizerData) {
    r.minValue <= r.valueChecked <= r.maxValue
  }

  /**
   * The bounds are replaced exactly when the entered minimum is below the
   * entered maximum, and the threshold takes the entered value exactly when
   * it lies inside the resulting bounds.
   */
  lemma DrawRandomizerFields(r: RandomizerData, min: int, max: int, val: int)
    ensures var r2 := DrawRandomizer(r, min, max, val).0;
      (r2.minValue, r2.maxValue) == (if min < max then (min, max) else (r.minValue, r.maxValue))
    ensures var r2 := DrawRandomizer(r, min, max, val).0;
      r2.minValue <= r2.maxValue ==> (r2.valueChecked == val <==> r2.minValue <= val <= r2.maxValue)
  {
  }

  /**
   * Whatever is typed, a panel whose bounds were in order leaves them in
   * order with the threshold between them, so the threshold is always one
   * of the values the evaluator can draw.
   */
  lemma DrawRandomizerSettles(r: RandomizerData, min: int, max: int, val: int)
    requires r.minValue <= r.maxValue
    ensures Settled(DrawRandomizer(r, min, max, val).0)
    ensures DrawRandomizer(r, min, max, val).0.LegalDraw(DrawRandomizer(r, min, max, val).0.valueChecked)
  {
  }

  /**
   * The change flag is raised exactly when a new range is accepted that
   * differs from the old one or the entered threshold differs from the
   * stored one; on settled data a lowered flag means nothing changed.
   */
  lemma DrawRandomizerChanged(r: RandomizerData, min: int, max: int, val: int)
    ensures DrawRandomizer(r, min, max, val).1 <==>
      (min < max && (min != r.minValue || max != r.maxValue)) || val != r.valueChecked
    ensures Settled(r) && !DrawRandomizer(r, min, max, val).1 ==> DrawRandomizer(r, min, max, val).0 == r
  {
  }

  /**
   * Submitting the panel again with the values it now shows changes
   * nothing and reports no change, once the bounds are in order.
   */
  lemma {:induction false} DrawRandomizerIdempotent(r: RandomizerData, min: int, max: int, val: int)
    requires r.minValue <= r.maxValue
    ensures var r2 := DrawRandomizer(r, min, max, val).0;
      DrawRandomizer(r2, r2.minValue, r2.maxValue, r2.valueChecked) == (r2, false)
  {
    DrawRandomizerSettles(r, min, max, val);
    var r2 := DrawRandomizer(r, min, max, val).0;
    DrawRandomizerChanged(r2, r2.minValue, r2.maxValue, r2.valueChecked);
  }

  /**
   * `DrawRandomizerConditionInterior`, with the values entered in the three
   * fields as inputs. A condition without an evaluator fails with the null
   * dereference the panel's first read raises.
   */
  method DrawRandomizerConditionInterior(c: ConditionNode, minField: int, maxField: int, valField: int)
    returns (r: Result<bool>)
    modifies c.randomizer
    ensures c.randomizer == old(c.randomizer)
    ensures old(c.randomizer) == null ==> r == Err(NullReference)
    ensures old(c.randomizer) != null ==>
      r.Ok? && (c.randomizer.Data(), r.value) == DrawRandomizer(old(c.randomizer.Data()), minField, maxField, valField)
  {
    if c.randomizer == null {
      return Err(NullReference);
    }
    var rc := c.randomizer;
    var min := minField;
    var max := maxField;
    var val := valField;
    var changed := false;
    if min < max {
      changed := rc.minValue != min || rc.maxValue != max;
      rc.minValue := min;
      rc.maxValue := max;
    }
    changed := changed || val != rc.valueChecked;
    if val <= rc.maxValue {
      rc.valueChecked := if val >= rc.minValue then val else rc.minValue;
    } else {
      rc.valueChecked := rc.maxValue;
    }
    r := Ok(changed);
  }
}
