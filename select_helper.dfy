/** `select`: a full-screen menu of `len` options read from terminal events
    until one is chosen. The arrow keys wrap around, the wheel stops at the
    ends. On an empty menu the `len - 1` of the arrow keys and of wheel-down
    goes below zero, which is a panic and is modelled as `Underflow`. */
module Select {
  import opened Wrappers
  import opened Keys
  import opened Mouse

  /** How far one wheel step moves the selection (`SCROLL_FACTOR`). */
  const SCROLL_FACTOR: nat := 1

  /** An event read from the terminal; `BadInput` is a read error or an
      event the loop does not look at. */
  datatype Input = KeyInput(key: Key) | MouseInput(ev: MouseEvent) | BadInput

  /** After one event: the loop goes on with a new selection, reporting an
      unrecognised key or not, or it ends with the choice (`None` to cancel). */
  datatype Outcome = Moved(cur: nat, reportErr: bool) | Chosen(choice: Option<nat>)

  predicate CancelKey(ev: Input) {
    ev == KeyInput(Char('q')) || ev == KeyInput(Esc)
  }

  /** The events whose handling computes `len - 1`. */
  predicate NeedsOption(ev: Input) {
    ev == KeyInput(Up) || ev == KeyInput(Down) || ev == MouseInput(WheelDown)
  }

  /** One turn of the loop. */
  function SelectStep(len: nat, cur: nat, ev: Input): Result<Outcome, Error>
  {
    match ev
    case KeyInput(key) =>
      if key == Char('q') || key == Esc then Success(Chosen(None))
      else if key == Up then
        if cur > 0 then Success(Moved(cur - 1, false))
        else if len == 0 then Failure(Underflow)
        else Success(Moved(len - 1, false))
      else if key == Down then
        if len == 0 then Failure(Underflow)
        else Success(Moved(if cur < len - 1 then cur + 1 else 0, false))
      else if key == Char('\n') then Success(Chosen(Some(cur)))
      else Success(Moved(cur, true))
    case MouseInput(WheelDown) =>
      if len == 0 then Failure(Underflow)
      else
        var next := cur + SCROLL_FACTOR;
        Success(Moved(if next < len - 1 then next else len - 1, false))
    case MouseInput(WheelUp) =>
      Success(Moved(if cur < SCROLL_FACTOR then 0 else cur - SCROLL_FACTOR, false))
    case MouseInput(OtherMouse) => Success(Moved(cur, true))
    case BadInput => Success(Moved(cur, true))
  }

  /** A turn fails only on an empty menu, for an arrow key or wheel-down
      (Up only from option 0); it is cancelled exactly by `q` and Esc and
      otherwise confirms the current option; an unrecognised event keeps the
      selection; and on a non-empty menu the selection stays an option. */
  lemma SelectStepMeaning(len: nat, cur: nat, ev: Input)
    ensures var r := SelectStep(len, cur, ev);
      (r.Failure? <==> len == 0 && NeedsOption(ev) && !(ev == KeyInput(Up) && cur > 0)) &&
      (r.Failure? ==> r.error == Underflow) &&
      (r.Success? && r.value.Chosen? ==>
        (CancelKey(ev) <==> r.value.choice == None) && (r.value.choice != None ==> r.value.choice == Some(cur))) &&
      ((r.Success? && r.value.Moved? && r.value.reportErr) ==> r.value.cur == cur) &&
      (len > 0 && cur < len && r.Success? && r.value.Moved? ==> r.value.cur < len)
  {
  }

  /** The loop over the events from selection `cur`: the choice it returns,
      or the current selection when the events run out. */
  function SelectFrom(len: nat, cur: nat, events: seq<Input>): Result<Option<nat>, Error>
    decreases |events|
  {
    if |events| == 0 then Success(Some(cur))
    else match SelectStep(len, cur, events[0])
      case Failure(e) => Failure(e)
      case Success(Chosen(c)) => Success(c)
      case Success(Moved(next, _)) => SelectFrom(len, next, events[1..])
  }

  /** `select` over the events the terminal delivers, starting on the first
      option. */
  method RunSelect(len: nat, events: seq<Input>) returns (r: Result<Option<nat>, Error>)
    ensures r == SelectFrom(len, 0, events)
  {
    var cur: nat := 0;
    var i := 0;
    while i < |events|
      invariant i <= |events|
      invariant SelectFrom(len, cur, events[i..]) == SelectFrom(len, 0, events)
    {
      SelectFromStep(len, cur, events, i);
      var reportErr := false;
      match events[i] {
        case KeyInput(key) =>
          if key == Char('q') || key == Esc {
            return Success(None);
          } else if key == Up {
            if cur > 0 {
              cur := cur - 1;
            } else if len == 0 {
              return Failure(Underflow);
            } else {
              cur := len - 1;
            }
          } else if key == Down {
            if len == 0 {
              return Failure(Underflow);
            }
            cur := if cur < len - 1 then cur + 1 else 0;
          } else if key == Char('\n') {
            break;
          } else {
            reportErr := true;
          }
        case MouseInput(WheelDown) =>
          if len == 0 {
            return Failure(Underflow);
          }
          var next := cur + SCROLL_FACTOR;
          cur := if next < len - 1 then next else len - 1;
        case MouseInput(WheelUp) =>
          cur := if cur < SCROLL_FACTOR then 0 else cur - SCROLL_FACTOR;
        case MouseInput(OtherMouse) =>
          reportErr := true;
        case BadInput =>
          reportErr := true;
      }
      i := i + 1;
    }
    return Success(Some(cur));
  }

  /** One turn of the loop over the events from position `i`. */
  lemma SelectFromStep(len: nat, cur: nat, events: seq<Input>, i: nat)
    requires i < |events|
    ensures SelectFrom(len, cur, events[i..]) ==
      match SelectStep(len, cur, events[i])
      case Failure(e) => Failure(e)
      case Success(Chosen(c)) => Success(c)
      case Success(Moved(next, _)) => SelectFrom(len, next, events[i + 1..])
  {
    assert events[i..][0] == events[i] && events[i..][1..] == events[i + 1..];
  }

  /** On a non-empty menu the loop never fails, and any option it returns
      exists. */
  lemma {:induction false} SelectInRange(len: nat, cur: nat, events: seq<Input>)
    requires 0 < len && cur < len
    ensures SelectFrom(len, cur, events).Success?
    ensures SelectFrom(len, cur, events).value.Some? ==> SelectFrom(len, cur, events).value.value < len
    decreases |events|
  {
    if |events| > 0 {
      var st := SelectStep(len, cur, events[0]);
      SelectStepMeaning(len, cur, events[0]);
      if st.value.Moved? {
        SelectInRange(len, st.value.cur, events[1..]);
      }
    }
  }

  /** On an empty menu the loop fails exactly when it meets an arrow key or
      wheel-down before it is cancelled or confirmed; otherwise it returns
      option 0, or `None` when cancelled. */
  lemma {:induction false} SelectEmpty(events: seq<Input>)
    ensures SelectFrom(0, 0, events).Failure? <==> FailsBeforeChoice(events)
    ensures SelectFrom(0, 0, events).Success? ==> SelectFrom(0, 0, events).value in {None, Some(0)}
    decreases |events|
  {
    if |events| > 0 {
      var st := SelectStep(0, 0, events[0]);
      SelectStepMeaning(0, 0, events[0]);
      if st.Success? && st.value.Moved? {
        SelectEmpty(events[1..]);
      }
    }
  }

  /** An arrow key or wheel-down comes before the first cancel or confirm. */
  predicate FailsBeforeChoice(events: seq<Input>)
    decreases |events|
  {
    |events| > 0 &&
    (NeedsOption(events[0]) ||
     (!CancelKey(events[0]) && events[0] != KeyInput(Char('\n')) && FailsBeforeChoice(events[1..])))
  }

  /** Down then Up, and Up then Down, come back to the same option. */
  lemma ArrowsInverse(len: nat, cur: nat)
    requires 0 < len && cur < len
    ensures var d := SelectStep(len, cur, KeyInput(Down)).value.cur;
      SelectStep(len, d, KeyInput(Up)).value == Moved(cur, false)
    ensures var u := SelectStep(len, cur, KeyInput(Up)).value.cur;
      SelectStep(len, u, KeyInput(Down)).value == Moved(cur, false)
  {
  }

  /** The wheel stops at both ends, and away from the last option wheel-down
      then wheel-up comes back. */
  lemma WheelSaturates(len: nat, cur: nat)
    requires 0 < len && cur < len
    ensures cur == len - 1 ==> SelectStep(len, cur, MouseInput(WheelDown)).value == Moved(cur, false)
    ensures cur == 0 ==> SelectStep(len, cur, MouseInput(WheelUp)).value == Moved(cur, false)
    ensures cur < len - 1 ==>
      var d := SelectStep(len, cur, MouseInput(WheelDown)).value.cur;
      d == cur + 1 && SelectStep(len, d, MouseInput(WheelUp)).value == Moved(cur, false)
  {
  }
}
