/**
 * The "download as image" button: a click starts a snapshot of the report
 * card and puts the button in a busy, disabled state; when the snapshot
 * settles the button becomes clickable again, showing either its ready
 * label (the image was saved) or a failure label.
 *
 * The screenshot library is an oracle: whether it is loaded is a parameter
 * of the click, and whether the snapshot and its PNG encoding succeeded is a
 * parameter of the settle step.
 */
module Download {

  /** What the button's label shows. */
  datatype Label =
    | Ready   // download icon, "تحميل كصورة" (also the label the page starts with)
    | Busy    // spinner, "جاري المعالجة..."
    | Failed  // warning icon, "فشل التحميل"

  /** The button's state: its face (the label it shows) and its `disabled` flag. */
  datatype Button = Button(face: Label, disabled: bool)

  /** What one step does besides changing the button. */
  datatype Effect =
    | NoEffect
    | AlertLibraryMissing  // the screenshot library is not loaded: an alert, nothing else
    | StartCapture         // the snapshot of the card is requested
    | SaveFile(name: string) // a PNG download with this file name is triggered
    | AlertCaptureFailed   // an alert suggesting the print button instead

  const FilePrefix := "نتيجة_"
  const FileSuffix := ".png"
  /** The name used when the name cell is empty. */
  const FallbackName := "الطالب"

  /** `studentName.textContent || 'الطالب'`. */
  function ShownName(nameText: string): (n: string)
    ensures n != []
    ensures nameText != [] ==> n == nameText
  {
    if nameText == [] then FallbackName else nameText
  }

  /** The download's file name for the given name-cell text. */
  function FileName(nameText: string): (f: string)
    ensures |f| == |FilePrefix| + |ShownName(nameText)| + |FileSuffix|
    ensures f[..|FilePrefix|] == FilePrefix
    ensures f[|f| - |FileSuffix|..] == FileSuffix
  {
    FilePrefix + ShownName(nameText) + FileSuffix
  }

  /** The name part of a file name: what lies between the prefix and the suffix. */
  function NamePart(f: string): string
    requires |f| >= |FilePrefix| + |FileSuffix|
  {
    f[|FilePrefix|..|f| - |FileSuffix|]
  }

  /**
   * The file name carries the shown name back out: the name cell's text
   * when it is not empty, the fallback when it is.
   */
  lemma FileNameRoundTrip(nameText: string)
    ensures NamePart(FileName(nameText)) == ShownName(nameText)
    ensures nameText != [] ==> NamePart(FileName(nameText)) == nameText
    ensures nameText == [] ==> NamePart(FileName(nameText)) == FallbackName
  {
    var f := FileName(nameText);
    var n := ShownName(nameText);
    assert f == FilePrefix + n + FileSuffix;
    assert f[|FilePrefix|..|f| - |FileSuffix|] == n;
  }

  /** Two different non-empty names never give the same file name. */
  lemma FileNameInjective(a: string, b: string)
    requires a != [] && b != [] && FileName(a) == FileName(b)
    ensures a == b
  {
    FileNameRoundTrip(a);
    FileNameRoundTrip(b);
  }

  /** The page's button before any click. */
  const Initial := Button(Ready, false)

  /** The button's invariant: it is disabled exactly while it shows the busy label. */
  predicate Consistent(b: Button)
  {
    b.disabled <==> b.face == Busy
  }

  /**
   * A click. The browser does not deliver clicks to a disabled button;
   * otherwise the handler alerts and stops if the library is missing,
   * stops if there is no card to capture, and else goes busy and starts
   * the snapshot.
   */
  function Press(b: Button, libraryLoaded: bool, cardPresent: bool): (Button, Effect)
  {
    if b.disabled then (b, NoEffect)
    else if !libraryLoaded then (b, AlertLibraryMissing)
    else if !cardPresent then (b, NoEffect)
    else (Button(Busy, true), StartCapture)
  }

  /**
   * The snapshot settles: on success the file named from the name cell's
   * current text is saved and the button is ready again; on failure (of the
   * snapshot or of its encoding) an alert is shown and the button shows the
   * failure label, clickable again.
   */
  function Settle(b: Button, ok: bool, nameText: string): (Button, Effect)
  {
    if ok then (Button(Ready, false), SaveFile(FileName(nameText)))
    else (Button(Failed, false), AlertCaptureFailed)
  }

  /**
   * A click starts a snapshot exactly when the button is enabled, the
   * library is loaded and the card is there, and then the button is busy
   * and disabled; in every other case the button is left as it was.
   */
  lemma PressSpec(b: Button, libraryLoaded: bool, cardPresent: bool)
    ensures var (b', e) := Press(b, libraryLoaded, cardPresent);
      && (e == StartCapture <==> !b.disabled && libraryLoaded && cardPresent)
      && (e == StartCapture ==> b' == Button(Busy, true))
      && (e != StartCapture ==> b' == b)
      && (e == AlertLibraryMissing <==> !b.disabled && !libraryLoaded)
  {
  }

  /** Whatever the outcome, a settled snapshot leaves the button clickable, with a label telling which. */
  lemma SettleSpec(b: Button, ok: bool, nameText: string)
    ensures var (b', e) := Settle(b, ok, nameText);
      && !b'.disabled
      && (b'.face == Ready <==> ok)
      && (b'.face == Failed <==> !ok)
      && (ok ==> e.SaveFile? && NamePart(e.name) == ShownName(nameText))
      && (!ok ==> e == AlertCaptureFailed)
  {
    FileNameRoundTrip(nameText);
  }

  /** Both steps keep the button disabled exactly while it is busy. */
  lemma StepsKeepConsistent(b: Button, libraryLoaded: bool, cardPresent: bool, ok: bool, nameText: string)
    requires Consistent(b)
    ensures Consistent(Press(b, libraryLoaded, cardPresent).0)
    ensures Consistent(Settle(b, ok, nameText).0)
  {
  }

  /** While a snapshot is in flight, further clicks do nothing: no second snapshot starts. */
  lemma NoReentrantCapture(b: Button, libraryLoaded: bool, cardPresent: bool, l2: bool, c2: bool)
    requires Press(b, libraryLoaded, cardPresent).1 == StartCapture
    ensures Press(Press(b, libraryLoaded, cardPresent).0, l2, c2) == (Press(b, libraryLoaded, cardPresent).0, NoEffect)
  {
  }

  /** What happens to the button, in order: a user click or the end of the snapshot. */
  datatype Event =
    | Click(libraryLoaded: bool, cardPresent: bool)
    | Snapshot(ok: bool, nameText: string)

  /** One event's step. */
  function Step(b: Button, e: Event): (Button, Effect)
  {
    match e
    case Click(l, c) => Press(b, l, c)
    case Snapshot(ok, n) => Settle(b, ok, n)
  }

  /** The button after a sequence of events. */
  function Run(b: Button, events: seq<Event>): Button
    decreases |events|
  {
    if events == [] then b else Run(Step(b, events[0]).0, events[1..])
  }

  /** The effects of a sequence of events, one per event, in order. */
  function Effects(b: Button, events: seq<Event>): (es: seq<Effect>)
    ensures |es| == |events|
    decreases |events|
  {
    if events == [] then [] else [Step(b, events[0]).1] + Effects(Step(b, events[0]).0, events[1..])
  }

  /** From the page's initial button, or any consistent one, every sequence of events keeps the invariant. */
  lemma {:induction false} RunKeepsConsistent(b: Button, events: seq<Event>)
    requires Consistent(b)
    ensures Consistent(Run(b, events))
    decreases |events|
  {
    if events != [] {
      match events[0] {
        case Click(l, c) => StepsKeepConsistent(b, l, c, true, "");
        case Snapshot(ok, n) => StepsKeepConsistent(b, true, true, ok, n);
      }
      RunKeepsConsistent(Step(b, events[0]).0, events[1..]);
    }
  }

  /**
   * Two snapshots never overlap: once a click starts one, no later click
   * starts another until a snapshot has settled.
   */
  lemma {:induction false} OneCaptureAtATime(b: Button, events: seq<Event>, i: nat)
    requires i < |events| && Effects(b, events)[i] == StartCapture
    requires forall j :: i < j < |events| ==> events[j].Click?
    ensures forall j :: i < j < |events| ==> Effects(b, events)[j] == NoEffect
    decreases |events|
  {
    var b1 := Step(b, events[0]).0;
    if i == 0 {
      forall j | 0 < j < |events| ensures Effects(b, events)[j] == NoEffect {
        ClicksWhileBusy(b1, events[1..], j - 1);
      }
    } else {
      OneCaptureAtATime(b1, events[1..], i - 1);
    }
  }

  /** A disabled, busy button ignores any number of clicks and stays busy. */
  lemma {:induction false} ClicksWhileBusy(b: Button, events: seq<Event>, j: nat)
    requires b == Button(Busy, true)
    requires j < |events| && forall k :: 0 <= k < |events| ==> events[k].Click?
    ensures Effects(b, events)[j] == NoEffect
    decreases |events|
  {
    if j > 0 {
      ClicksWhileBusy(b, events[1..], j - 1);
    }
  }

  /** The button as the page holds it; the click handler and the snapshot continuation update it in place. */
  class DownloadButton {
    var face: Label
    var disabled: bool

    function State(): Button
      reads this
    {
      Button(face, disabled)
    }

    /** The button as the page loads it: ready and enabled. */
    constructor ()
      ensures State() == Initial && Consistent(State())
    {
      face := Ready;
      disabled := false;
    }

    /** A click on the button, as the browser delivers it to the click handler. */
    method Click(libraryLoaded: bool, cardPresent: bool) returns (effect: Effect)
      modifies this
      ensures (State(), effect) == Press(old(State()), libraryLoaded, cardPresent)
    {
      if disabled {
        // a disabled button receives no click event
        return NoEffect;
      }
      if !libraryLoaded {
        return AlertLibraryMissing;
      }
      if !cardPresent {
        return NoEffect;
      }
      face := Busy;
      disabled := true;
      effect := StartCapture;
    }

    /** The snapshot's continuation: save the file and restore the button, or report the failure. */
    method Settled(ok: bool, nameText: string) returns (effect: Effect)
      modifies this
      ensures (State(), effect) == Settle(old(State()), ok, nameText)
    {
      if ok {
        effect := SaveFile(FilePrefix + ShownName(nameText) + FileSuffix);
        face := Ready;
        disabled := false;
      } else {
        effect := AlertCaptureFailed;
        face := Failed;
        disabled := false;
      }
    }
  }
}
