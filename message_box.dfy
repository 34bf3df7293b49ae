// calibre's message dialogs (src/calibre/gui2/dialogs/message_box.py):
// the icon a MessageBox takes from its type, the size limits it sets on
// itself, its details toggle, and the JobError dialog, which shows the
// errors of background jobs one at a time from a first-in first-out queue.
//
// Qt's widgets are reduced to the state these handlers read and write; the
// size hints Qt computes from the layout are parameters.

module MessageBox {
  import opened Wrappers
  import Text

  const Error: int := 0
  const Warning: int := 1
  const Info: int := 2
  const Question: int := 3

  const ShowDetMsg := "Show &details"
  const HideDetMsg := "Hide &details"

  /** The icon name of a message type; None where the lookup raises a
      KeyError. */
  function TypeName(type_: int): (r: Option<string>)
    ensures r.Some? <==> type_ in {Error, Warning, Info, Question}
    ensures type_ == Error ==> r == Some("error")
    ensures type_ == Warning ==> r == Some("warning")
    ensures type_ == Info ==> r == Some("information")
    ensures type_ == Question ==> r == Some("question")
  {
    if type_ == Error then Some("error")
    else if type_ == Warning then Some("warning")
    else if type_ == Info then Some("information")
    else if type_ == Question then Some("question")
    else None
  }

  /** The icon file of a message type: `dialog_<name>.png`. */
  function TypeIcon(type_: int): (r: Option<string>)
    ensures r.Some? <==> type_ in {Error, Warning, Info, Question}
    ensures r.Some? ==> r.value == "dialog_" + TypeName(type_).value + ".png"
  {
    match TypeName(type_)
    case None => None
    case Some(n) => Some("dialog_" + n + ".png")
  }

  /** The icon of a new MessageBox: the one given, else the type's. */
  function IconFor(type_: int, qIcon: Option<string>): (r: Option<string>)
    ensures qIcon.Some? ==> r == qIcon
    ensures qIcon.None? ==> r == TypeIcon(type_)
  {
    if qIcon.Some? then qIcon else TypeIcon(type_)
  }

  /** Different message types get different icons. */
  lemma TypeIconsDistinct(a: int, b: int)
    requires TypeIcon(a).Some? && TypeIcon(b).Some? && a != b
    ensures TypeIcon(a) != TypeIcon(b)
  {
  }

  datatype Size = Size(width: int, height: int)

  function Max(a: int, b: int): int {
    if a >= b then a else b
  }

  function Min(a: int, b: int): int {
    if a <= b then a else b
  }

  /** `do_resize`'s maximum size: at most 500 high, at most 500 wide,
      except that it is always at least 100 wider than the buttons. */
  function MaxSize(hint: Size, buttonsWidth: int): (m: Size)
    ensures m.height <= 500 && m.height <= hint.height
    ensures m.height == hint.height || m.height == 500
    ensures m.width >= buttonsWidth + 100
    ensures m.width >= Min(hint.width, 500)
    ensures m.width == buttonsWidth + 100 || m.width == Min(hint.width, 500)
    ensures buttonsWidth + 100 <= 500 ==> m.width <= 500
    ensures buttonsWidth + 100 <= hint.width ==> m.width <= hint.width
  {
    Size(Max(Min(hint.width, 500), buttonsWidth + 100), Min(hint.height, 500))
  }

  /** Limiting a size that is already within the limits changes nothing. */
  lemma MaxSizeIdempotent(hint: Size, buttonsWidth: int)
    ensures MaxSize(MaxSize(hint, buttonsWidth), buttonsWidth) == MaxSize(hint, buttonsWidth)
  {
  }

  /** A larger size hint never gives a smaller limit. */
  lemma MaxSizeMonotone(a: Size, b: Size, buttonsWidth: int)
    requires a.width <= b.width && a.height <= b.height
    ensures MaxSize(a, buttonsWidth).width <= MaxSize(b, buttonsWidth).width
    ensures MaxSize(a, buttonsWidth).height <= MaxSize(b, buttonsWidth).height
  {
  }

  /** The details pane and its toggle button: whether the details show,
      the button's label and whether the button shows. */
  datatype Details = Details(shown: bool, buttonText: string, buttonVisible: bool)
  {
    /** The button names what pressing it will do. */
    predicate Consistent() {
      buttonText == if shown then HideDetMsg else ShowDetMsg
    }

    /** MessageBox's `toggle_det_msg`, which reads the pane's visibility. */
    function ToggledByPane(): (d: Details)
      ensures d.shown == !shown && d.buttonVisible == buttonVisible
      ensures d.buttonText == if shown then ShowDetMsg else HideDetMsg
    {
      Details(!shown, if shown then ShowDetMsg else HideDetMsg, buttonVisible)
    }

    /** JobError's `toggle_det_msg`, which reads the button's label. */
    function ToggledByLabel(): (d: Details)
      ensures d.shown == (buttonText != HideDetMsg) && d.buttonVisible == buttonVisible
      ensures d.buttonText == if buttonText == HideDetMsg then ShowDetMsg else HideDetMsg
    {
      var vis := buttonText == HideDetMsg;
      Details(!vis, if vis then ShowDetMsg else HideDetMsg, buttonVisible)
    }
  }

  /** While the label and pane agree, both toggles do the same, keep them in
      agreement, and toggling twice restores the state. */
  lemma TogglesAgree(d: Details)
    requires d.Consistent()
    ensures d.ToggledByPane() == d.ToggledByLabel()
    ensures d.ToggledByPane().Consistent()
    ensures d.ToggledByPane().ToggledByPane() == d
  {
    assert ShowDetMsg[0] != HideDetMsg[0];
  }

  class MessageBox {
    var icon: string
    var isQuestion: bool
    var details: Details
    var maximumSize: Size

    ghost predicate Valid()
      reads this
    {
      details.Consistent()
    }

    /** The parts of `__init__` these handlers depend on; `hint` and
        `buttonsWidth` are Qt's size hints of the dialog and of its
        buttons. */
    constructor (type_: int, detMsg: string, qIcon: Option<string>, hint: Size, buttonsWidth: int)
      requires IconFor(type_, qIcon).Some?
      ensures Valid()
      ensures icon == IconFor(type_, qIcon).value && isQuestion == (type_ == Question)
      ensures details == Details(false, ShowDetMsg, detMsg != "")
      ensures maximumSize == MaxSize(hint, buttonsWidth)
    {
      icon := IconFor(type_, qIcon).value;
      isQuestion := type_ == Question;
      details := Details(false, ShowDetMsg, detMsg != "");
      maximumSize := MaxSize(hint, buttonsWidth);
      assert ShowDetMsg[0] != HideDetMsg[0];
    }

    /** `do_resize` */
    method DoResize(hint: Size, buttonsWidth: int)
      modifies this
      ensures maximumSize == MaxSize(hint, buttonsWidth)
      ensures details == old(details) && icon == old(icon) && isQuestion == old(isQuestion)
    {
      maximumSize := MaxSize(hint, buttonsWidth);
    }

    /** `toggle_det_msg`: the details are shown or hidden, the button
        relabelled to undo that, and the dialog resized. */
    method ToggleDetMsg(hint: Size, buttonsWidth: int)
      requires Valid()
      modifies this
      ensures Valid()
      ensures details == old(details).ToggledByPane()
      ensures maximumSize == MaxSize(hint, buttonsWidth)
      ensures icon == old(icon) && isQuestion == old(isQuestion)
    {
      var vis := details.shown;
      details := Details(!vis, if vis then ShowDetMsg else HideDetMsg, details.buttonVisible);
      TogglesAgree(old(details));
      DoResize(hint, buttonsWidth);
    }
  }

  // ---------------------------------------------------------------------
  // JobError

  /** The function a retry button calls, by identity. */
  datatype Callback = Callback(id: nat)

  /** A queued error: `(title, msg, det_msg, retry_func)`. */
  datatype QueuedError = QueuedError(title: string, msg: string, detMsg: string, retry: Option<Callback>)

  /** The suppress check box's label, with English plural forms. */
  function SuppressText(n: nat): (t: string)
    ensures n == 1 ==> t == "Hide the remaining error message"
    ensures n != 1 ==> t == "Hide the " + Text.NatToString(n) + " remaining error messages"
  {
    if n == 1 then "Hide the remaining error message"
    else "Hide the " + Text.NatToString(n) + " remaining error messages"
  }

  /** Different counts give different labels. */
  lemma SuppressTextInjective(m: nat, n: nat)
    requires m != n
    ensures SuppressText(m) != SuppressText(n)
  {
    var one := "Hide the remaining error message";
    if m != 1 && n != 1 {
      var a := Text.NatToString(m);
      var b := Text.NatToString(n);
      var sa := "Hide the " + a + " remaining error messages";
      var sb := "Hide the " + b + " remaining error messages";
      if sa == sb {
        assert |a| == |b|;
        assert sa[9..9 + |a|] == a;
        assert sb[9..9 + |b|] == b;
        Text.NatToStringInjective(m, n);
      }
    } else {
      var k := if m == 1 then n else m;
      var s := SuppressText(k);
      assert s[9] == Text.NatToString(k)[0];
      assert Text.IsDigit(s[9]);
      assert s[9] != one[9];
    }
  }

  /** The suppress check box: checked, shown, and the count its label
      was last written with. */
  datatype Suppress = Suppress(checked: bool, visible: bool, count: nat)

  /** A blank error, what the dialog holds before the first one. */
  function NoError(): QueuedError {
    QueuedError("", "<p>&nbsp;", "", None)
  }

  class JobError {
    var queue: seq<QueuedError>
    var visible: bool
    /** The error on display, with its retry function. */
    var current: QueuedError
    var details: Details
    var retryVisible: bool
    var suppress: Suppress

    /** Every error ever queued, and those that have left the queue, by
        being shown or by being suppressed. */
    ghost var submitted: seq<QueuedError>
    ghost var removed: seq<QueuedError>

    ghost predicate Valid()
      reads this
    {
      submitted == removed + queue
      && details.Consistent()
      && (suppress.visible <==> suppress.count > 3)
    }

    constructor ()
      ensures Valid()
      ensures queue == [] && !visible && current == NoError() && retryVisible
      ensures details == Details(false, ShowDetMsg, true)
      ensures suppress == Suppress(false, false, 0)
      ensures submitted == [] && removed == []
    {
      queue := [];
      visible := false;
      current := NoError();
      details := Details(false, ShowDetMsg, true);
      retryVisible := true;
      suppress := Suppress(false, false, 0);
      submitted, removed := [], [];
      assert ShowDetMsg[0] != HideDetMsg[0];
    }

    /** `update_suppress_state`: the check box offers to hide the queued
        errors, and is shown only when more than three wait. */
    method UpdateSuppressState()
      modifies this
      ensures suppress == Suppress(old(suppress).checked, |queue| > 3, |queue|)
      ensures queue == old(queue) && visible == old(visible) && current == old(current)
      ensures details == old(details) && retryVisible == old(retryVisible)
      ensures submitted == old(submitted) && removed == old(removed)
    {
      suppress := Suppress(suppress.checked, |queue| > 3, |queue|);
    }

    /** `pop`: with the dialog hidden and an error waiting, the oldest
        error is taken from the queue and shown. */
    method Pop()
      requires Valid()
      modifies this
      ensures Valid()
      ensures old(queue) == [] || old(visible) ==>
                queue == old(queue) && visible == old(visible) && current == old(current)
                && suppress == old(suppress) && removed == old(removed)
                && details == old(details) && retryVisible == old(retryVisible)
      ensures old(queue) != [] && !old(visible) ==>
                queue == old(queue)[1..] && visible && current == old(queue)[0]
                && removed == old(removed) + [old(queue)[0]]
                && details == Details(false, ShowDetMsg, old(queue)[0].detMsg != "")
                && retryVisible == old(queue)[0].retry.Some?
                && suppress == Suppress(false, |queue| > 3, |queue|)
      ensures submitted == old(submitted)
    {
      if queue == [] || visible {
        return;
      }
      var e := queue[0];
      assert queue == [e] + queue[1..];
      queue := queue[1..];
      removed := removed + [e];
      current := e;
      details := Details(false, ShowDetMsg, true);
      suppress := suppress.(checked := false);
      UpdateSuppressState();
      if e.detMsg == "" {
        details := details.(buttonVisible := false);
      }
      retryVisible := e.retry.Some?;
      visible := true;
      assert ShowDetMsg[0] != HideDetMsg[0];
    }

    /** `show_error`: the error joins the end of the queue and is shown at
        once when nothing else is on display. */
    method ShowError(title: string, msg: string, detMsg: string, retry: Option<Callback>)
      requires Valid()
      modifies this
      ensures Valid()
      ensures submitted == old(submitted) + [QueuedError(title, msg, detMsg, retry)]
      ensures old(visible) ==> queue == old(queue) + [QueuedError(title, msg, detMsg, retry)]
                               && visible && current == old(current) && removed == old(removed)
                               && details == old(details) && retryVisible == old(retryVisible)
                               && suppress == Suppress(old(suppress).checked, |queue| > 3, |queue|)
      ensures !old(visible) ==>
                var q := old(queue) + [QueuedError(title, msg, detMsg, retry)];
                queue == q[1..] && visible && current == q[0] && removed == old(removed) + [q[0]]
                && details == Details(false, ShowDetMsg, q[0].detMsg != "")
                && retryVisible == q[0].retry.Some?
                && suppress == Suppress(false, |queue| > 3, |queue|)
    {
      var e := QueuedError(title, msg, detMsg, retry);
      queue := queue + [e];
      submitted := submitted + [e];
      UpdateSuppressState();
      Pop();
    }

    /** `done`: the dialog closes, the queue is emptied when the user
        asked to hide the rest, and another `pop` is requested (it runs
        later, from the event loop, as a call of Pop). */
    method Done()
      requires Valid()
      modifies this
      ensures Valid()
      ensures !visible
      ensures queue == if old(suppress).checked then [] else old(queue)
      ensures removed == if old(suppress).checked then old(removed) + old(queue) else old(removed)
      ensures submitted == old(submitted) && current == old(current) && suppress == old(suppress)
      ensures details == old(details) && retryVisible == old(retryVisible)
    {
      if suppress.checked {
        removed := removed + queue;
        queue := [];
      }
      visible := false;
    }

    /** `retry`: with a retry function set, the dialog is accepted (which
        runs `done`) and the function is returned to be called. */
    method Retry() returns (call: Option<Callback>)
      requires Valid()
      modifies this
      ensures Valid()
      ensures call == old(current).retry
      ensures call.None? ==> queue == old(queue) && visible == old(visible) && removed == old(removed)
      ensures call.Some? ==> !visible && queue == if old(suppress).checked then [] else old(queue)
      ensures call.Some? ==> removed == if old(suppress).checked then old(removed) + old(queue) else old(removed)
      ensures submitted == old(submitted) && current == old(current) && suppress == old(suppress)
      ensures details == old(details) && retryVisible == old(retryVisible)
    {
      call := None;
      if current.retry.Some? {
        Done();
        call := current.retry;
      }
    }

    /** `toggle_det_msg`: reads the button's label to tell whether the
        details are shown, then flips both. */
    method ToggleDetMsg()
      requires Valid()
      modifies this
      ensures Valid()
      ensures details == old(details).ToggledByLabel()
      ensures queue == old(queue) && visible == old(visible) && current == old(current)
      ensures suppress == old(suppress) && retryVisible == old(retryVisible)
      ensures submitted == old(submitted) && removed == old(removed)
    {
      var vis := details.buttonText == HideDetMsg;
      details := Details(!vis, if vis then ShowDetMsg else HideDetMsg, details.buttonVisible);
      assert ShowDetMsg[0] != HideDetMsg[0];
    }

    /** The user ticks or clears the suppress check box. */
    method SetSuppressChecked(checked: bool)
      requires Valid()
      modifies this
      ensures Valid()
      ensures suppress == old(suppress).(checked := checked)
      ensures queue == old(queue) && visible == old(visible) && current == old(current)
      ensures details == old(details) && retryVisible == old(retryVisible)
      ensures submitted == old(submitted) && removed == old(removed)
    {
      suppress := suppress.(checked := checked);
    }
  }

  /** Errors leave the queue in the order they were queued: every state
      keeps what was submitted as what left, followed by what waits. */
  lemma QueueOrder(submitted: seq<QueuedError>, removed: seq<QueuedError>, queue: seq<QueuedError>, i: nat)
    requires submitted == removed + queue && i < |queue|
    ensures submitted[|removed| + i] == queue[i]
    ensures submitted[..|removed|] == removed
  {
  }
}
