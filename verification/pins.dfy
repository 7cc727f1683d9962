/** The GPIO pins the daemon accepts: `AVAILABLE_GPIO_PINS = list(range(2, 28))`,
    used as the argparse `choices` of the positional `pin` argument.
 */
module Pins {
  import opened Outcomes

  /** Python's `range(lo, hi)` with step 1, as a list. */
  function Range(lo: int, hi: int): (r: seq<int>)
    ensures |r| == if lo <= hi then hi - lo else 0
    ensures forall i :: 0 <= i < |r| ==> r[i] == lo + i
    ensures forall x :: x in r <==> lo <= x < hi
    decreases hi - lo
  {
    if lo >= hi then [] else [lo] + Range(lo + 1, hi)
  }

  function AvailableGpioPins(): seq<int>
  {
    Range(2, 28)
  }

  /** argparse's `choices` check on the pin: the pin itself when it is one of
      the available pins, otherwise an invalid-choice error. */
  function CheckPin(pin: int): (r: Result<int>)
    ensures r.Ok? <==> 2 <= pin <= 27
    ensures r.Ok? ==> r.value == pin
    ensures r.Err? ==> r.fault == InvalidChoice
  {
    if pin in AvailableGpioPins() then Ok(pin) else Err(InvalidChoice)
  }

  /** There are 26 available pins, 2 to 27 in increasing order. */
  lemma AvailablePinsAreTwoToTwentySeven()
    ensures |AvailableGpioPins()| == 26
    ensures AvailableGpioPins()[0] == 2 && AvailableGpioPins()[25] == 27
    ensures forall i, j :: 0 <= i < j < |AvailableGpioPins()| ==> AvailableGpioPins()[i] < AvailableGpioPins()[j]
  {
  }
}
