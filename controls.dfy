/** The two length thresholds of the input box, identical on both pages: when the reverse
    button is shown (`toggleButton`) and when the character counter turns to its warning
    colour (`updateCharCounter`). Both look at the raw, untrimmed input. */
module Controls {
  import opened Strings

  /** The button appears, and Enter is honoured, above this many code units. */
  const ButtonThreshold: nat := 3
  /** The counter turns to its warning colour from this many code units on. */
  const WarningThreshold: nat := 80
  /** The maximum the counter shows; nothing enforces it. */
  const CounterMax: nat := 90

  /** What the character counter shows: `count/max`, and whether it carries the warning class. */
  datatype Counter = Counter(count: nat, max: nat, warning: bool)

  /** `updateCharCounter`: the counter reports the raw length against 90 and warns from
      80 code units on, also beyond 90, since the length is never cut. */
  function CharCounter(value: JsString): (c: Counter)
    ensures c.count == |value| && c.max == CounterMax
    ensures c.warning <==> |value| >= WarningThreshold
  {
    Counter(|value|, CounterMax, |value| >= WarningThreshold)
  }

  /** `toggleButton`: whether the reverse button carries the `visible` class. */
  function ButtonVisible(value: JsString): (visible: bool)
    ensures visible <==> |value| > ButtonThreshold
  {
    |value| > ButtonThreshold
  }
}
