/**
 * The search click handler: validate the grade and the typed ID, look the
 * ID up in the loaded dataset, then render the matching record or report
 * the failure on the page.
 */
module Search {
  import opened Wrappers
  import opened Records
  import opened JsText
  import opened ReportCard

  /** The parsed JSON dataset: grade key to that grade's student records. */
  type Dataset = map<string, seq<Record>>

  /** The grade selector's placeholder option. */
  const GradePlaceholder := "اختر الصف التعليمي"

  /** An inline error message; `NoMessage` is the empty text `clearErrors` writes. */
  datatype Message = NoMessage | GradeRequired | IdRequired | GradeUnavailableMsg | NotFoundMsg

  /** The text each message shows. */
  function MessageText(m: Message): (t: string)
    ensures t == "" <==> m == NoMessage
  {
    match m
    case NoMessage => ""
    case GradeRequired => "يرجى اختيار الصف التعليمي"
    case IdRequired => "يرجى كتابة رقم الجلوس"
    case GradeUnavailableMsg => "بيانات هذا الصف غير متوفرة حالياً"
    case NotFoundMsg => "عفواً، رقم الجلوس غير صحيح أو غير موجود في هذا الصف"
  }

  /** The grade check: nothing, or the placeholder, is selected. */
  predicate GradeMissing(gradeKey: string)
  {
    gradeKey == GradePlaceholder || gradeKey == ""
  }

  /**
   * `s.Student_ID == idValue`, taken as: the stored ID's text equals the
   * trimmed input text.
   */
  predicate Matches(student: Record, id: string)
  {
    match Get(student, "Student_ID")
    case None => false
    case Some(v) => DisplayText(v) == id
  }

  /** `students.find(...)`, as the position of the first record whose ID matches. */
  function FindStudent(students: seq<Record>, id: string): (r: Option<nat>)
    ensures r.Some? ==> r.value < |students| && Matches(students[r.value], id)
    ensures r.Some? ==> forall j :: 0 <= j < r.value ==> !Matches(students[j], id)
    ensures r.None? <==> forall j :: 0 <= j < |students| ==> !Matches(students[j], id)
  {
    if students == [] then None
    else if Matches(students[0], id) then Some(0)
    else match FindStudent(students[1..], id)
      case None => None
      case Some(i) => Some(i + 1)
  }

  /** What one search attempt ends in. */
  datatype Outcome =
    | Halted(gradeMissing: bool, idMissing: bool) // validation failed, or no dataset is loaded
    | GradeUnavailable                            // the dataset has no entry for the grade
    | NotFound                                    // no record of the grade has the ID
    | Found(student: Record)                      // the record to render

  /** The decision the handler makes for one attempt. */
  function Decide(gradeKey: string, rawId: string, db: Option<Dataset>): Outcome
  {
    DecideTrimmed(gradeKey, Trim(rawId), db)
  }

  /** The decision once the typed ID has been trimmed to `id`. */
  function DecideTrimmed(gradeKey: string, id: string, db: Option<Dataset>): Outcome
  {
    if GradeMissing(gradeKey) || id == "" || db.None? then Halted(GradeMissing(gradeKey), id == "")
    else if gradeKey !in db.value then GradeUnavailable
    else LookupOutcome(db.value[gradeKey], id)
  }

  /** The lookup in one grade's records, once validation passed and the grade is present. */
  function LookupOutcome(students: seq<Record>, id: string): Outcome
  {
    match FindStudent(students, id)
    case None => NotFound
    case Some(i) => Found(students[i])
  }

  /** The parts of the page a search writes. */
  datatype PageView = PageView(gradeError: Message, idError: Message, resultsHidden: bool, card: Option<Card>)

  /** The page after an attempt with the given outcome. */
  function Apply(p: PageView, o: Outcome): PageView
  {
    match o
    case Halted(g, i) =>
      p.(gradeError := if g then GradeRequired else NoMessage, idError := if i then IdRequired else NoMessage)
    case GradeUnavailable => p.(gradeError := GradeUnavailableMsg, idError := NoMessage)
    case NotFound => p.(gradeError := NoMessage, idError := NotFoundMsg, resultsHidden := true)
    case Found(r) => PageView(NoMessage, NoMessage, false, Some(RenderCard(r)))
  }

  /**
   * Both checks always run: whenever either fails, the outcome reports
   * exactly which of the two failed, whatever the dataset; so one attempt
   * can show both messages.
   */
  lemma ValidationIndependent(gradeKey: string, rawId: string, db: Option<Dataset>, p: PageView)
    requires GradeMissing(gradeKey) || Trim(rawId) == ""
    ensures Decide(gradeKey, rawId, db) == Halted(GradeMissing(gradeKey), Trim(rawId) == "")
    ensures var q := Apply(p, Decide(gradeKey, rawId, db));
      && (q.gradeError == GradeRequired <==> GradeMissing(gradeKey))
      && (q.idError == IdRequired <==> Trim(rawId) == "")
  {
  }

  /** The grade check fails exactly for an empty key or the placeholder; the ID check exactly for blank text. */
  lemma ChecksFailExactly(gradeKey: string, rawId: string, db: Option<Dataset>)
    ensures (Decide(gradeKey, rawId, db).Halted? && Decide(gradeKey, rawId, db).gradeMissing)
            <==> gradeKey == "" || gradeKey == GradePlaceholder
    ensures (Decide(gradeKey, rawId, db).Halted? && Decide(gradeKey, rawId, db).idMissing)
            <==> forall i :: 0 <= i < |rawId| ==> rawId[i] in WhiteSpace
  {
    TrimEmptyIff(rawId);
  }

  /**
   * Every attempt starts by clearing both messages: the messages it leaves
   * depend only on its inputs, never on what an earlier attempt showed.
   */
  lemma NoStaleErrors(gradeKey: string, rawId: string, db: Option<Dataset>, p: PageView, q: PageView)
    ensures Apply(p, Decide(gradeKey, rawId, db)).gradeError == Apply(q, Decide(gradeKey, rawId, db)).gradeError
    ensures Apply(p, Decide(gradeKey, rawId, db)).idError == Apply(q, Decide(gradeKey, rawId, db)).idError
  {
    match Decide(gradeKey, rawId, db)
    case Halted(_, _) =>
    case GradeUnavailable =>
    case NotFound =>
    case Found(_) =>
  }

  /**
   * When validation fails, no dataset is loaded or the grade is unavailable,
   * nothing is looked up or rendered and the result panel is left as it was.
   */
  lemma StoppedLeavesResults(gradeKey: string, rawId: string, db: Option<Dataset>, p: PageView)
    requires GradeMissing(gradeKey) || Trim(rawId) == "" || db.None? || gradeKey !in db.value
    ensures Decide(gradeKey, rawId, db).Halted? || Decide(gradeKey, rawId, db).GradeUnavailable?
    ensures Apply(p, Decide(gradeKey, rawId, db)).resultsHidden == p.resultsHidden
    ensures Apply(p, Decide(gradeKey, rawId, db)).card == p.card
  {
  }

  /**
   * The grade is reported unavailable exactly when both checks pass, a
   * dataset is loaded and it lacks the grade; only the grade message is
   * shown, and the result panel is neither hidden nor re-rendered.
   */
  lemma GradeUnavailableIff(gradeKey: string, rawId: string, db: Option<Dataset>, p: PageView)
    ensures Decide(gradeKey, rawId, db) == GradeUnavailable
            <==> !GradeMissing(gradeKey) && Trim(rawId) != "" && db.Some? && gradeKey !in db.value
    ensures Decide(gradeKey, rawId, db) == GradeUnavailable ==>
            var q := Apply(p, Decide(gradeKey, rawId, db));
            && q.gradeError == GradeUnavailableMsg && q.idError == NoMessage
            && q.resultsHidden == p.resultsHidden && q.card == p.card
  {
  }

  /** A rendered record is the first record of the selected grade whose ID matches the trimmed input. */
  lemma FoundIsFirstMatch(gradeKey: string, rawId: string, db: Option<Dataset>) returns (i: nat)
    requires Decide(gradeKey, rawId, db).Found?
    ensures !GradeMissing(gradeKey) && Trim(rawId) != "" && db.Some? && gradeKey in db.value
    ensures i < |db.value[gradeKey]| && Decide(gradeKey, rawId, db).student == db.value[gradeKey][i]
    ensures Matches(db.value[gradeKey][i], Trim(rawId))
    ensures forall j :: 0 <= j < i ==> !Matches(db.value[gradeKey][j], Trim(rawId))
  {
    i := FindStudent(db.value[gradeKey], Trim(rawId)).value;
  }

  /**
   * "Not found" is reported exactly when both checks pass and no record of
   * the loaded grade matches; it shows only the ID message and hides the
   * result panel.
   */
  lemma NotFoundIff(gradeKey: string, rawId: string, db: Option<Dataset>, p: PageView)
    ensures Decide(gradeKey, rawId, db) == NotFound
            <==> && !GradeMissing(gradeKey) && Trim(rawId) != "" && db.Some? && gradeKey in db.value
                 && forall j :: 0 <= j < |db.value[gradeKey]| ==> !Matches(db.value[gradeKey][j], Trim(rawId))
    ensures Decide(gradeKey, rawId, db) == NotFound ==>
            var q := Apply(p, Decide(gradeKey, rawId, db));
            q.gradeError == NoMessage && q.idError == NotFoundMsg && q.resultsHidden && q.card == p.card
  {
  }

  /** A found record is shown, with no message and the result panel visible. */
  lemma FoundRenders(gradeKey: string, rawId: string, db: Option<Dataset>, p: PageView)
    requires Decide(gradeKey, rawId, db).Found?
    ensures var q := Apply(p, Decide(gradeKey, rawId, db));
      && q.gradeError == NoMessage && q.idError == NoMessage && !q.resultsHidden
      && q.card == Some(RenderCard(Decide(gradeKey, rawId, db).student))
  {
  }

  /** The search page's mutable state and the click handler that updates it. */
  class SearchPage {
    var gradeError: Message
    var idError: Message
    var resultsHidden: bool
    var card: Option<Card>

    function View(): PageView
      reads this
    {
      PageView(gradeError, idError, resultsHidden, card)
    }

    /** The page as loaded: no messages, no card, result panel hidden. */
    constructor ()
      ensures View() == PageView(NoMessage, NoMessage, true, None)
    {
      gradeError, idError := NoMessage, NoMessage;
      resultsHidden := true;
      card := None;
    }

    /** `clearErrors`. */
    method ClearErrors()
      modifies this
      ensures View() == old(View()).(gradeError := NoMessage, idError := NoMessage)
    {
      gradeError := NoMessage;
      idError := NoMessage;
    }

    /** `renderCard`: reveal the panel and show the record. */
    method Render(student: Record)
      modifies this
      ensures View() == old(View()).(resultsHidden := false, card := Some(RenderCard(student)))
    {
      resultsHidden := false;
      card := Some(RenderCard(student));
    }

    /** The search click handler. */
    method Search(gradeKey: string, rawId: string, db: Option<Dataset>)
      modifies this
      ensures View() == Apply(old(View()), Decide(gradeKey, rawId, db))
    {
      ghost var before := View();
      ClearErrors();
      var idValue := Trim(rawId);
      ghost var outcome := DecideTrimmed(gradeKey, idValue, db);
      assert Decide(gradeKey, rawId, db) == outcome;
      var valid := Validate(gradeKey, idValue);
      if !valid || db.None? {
        assert outcome == Halted(GradeMissing(gradeKey), idValue == "");
        return;
      }
      if gradeKey !in db.value {
        assert outcome == GradeUnavailable;
        gradeError := GradeUnavailableMsg;
        return;
      }
      assert outcome == LookupOutcome(db.value[gradeKey], idValue);
      ShowLookup(db.value[gradeKey], idValue);
    }

    /**
     * The handler's last step, with both messages cleared: render the first
     * matching record, or report "not found" and hide the result panel.
     */
    method ShowLookup(schoolYear: seq<Record>, idValue: string)
      requires gradeError == NoMessage && idError == NoMessage
      modifies this
      ensures View() == Apply(old(View()), LookupOutcome(schoolYear, idValue))
    {
      var student := FindStudent(schoolYear, idValue);
      if student.Some? {
        Render(schoolYear[student.value]);
      } else {
        idError := NotFoundMsg;
        resultsHidden := true;
      }
    }

    /**
     * The two input checks, each run whatever the other found; called with
     * both messages cleared.
     */
    method Validate(gradeKey: string, idValue: string) returns (valid: bool)
      requires gradeError == NoMessage && idError == NoMessage
      modifies this
      ensures valid <==> !GradeMissing(gradeKey) && idValue != ""
      ensures View() == old(View()).(gradeError := if GradeMissing(gradeKey) then GradeRequired else NoMessage,
                                     idError := if idValue == "" then IdRequired else NoMessage)
    {
      valid := true;
      if gradeKey == GradePlaceholder || gradeKey == "" {
        gradeError := GradeRequired;
        valid := false;
      }
      if idValue == "" {
        idError := IdRequired;
        valid := false;
      }
    }
  }

  /** The worked example: grade G1 holds one record, Ali with ID "100", mathematics 90 and total 90. */
  const ExampleRecord: Record :=
    [("Student_ID", Text("100")), ("name", Text("Ali")), ("mathematics", Num(90)), ("total", Num(90))]
  const ExampleDataset: Dataset := map["G1" := [ExampleRecord]]

  /** Ali's stored ID is the text "100": it matches "100" and nothing else. */
  lemma ExampleIdMatches(id: string)
    ensures FindStudent(ExampleDataset["G1"], id) == if id == "100" then Some(0) else None
  {
    assert Get(ExampleRecord, "Student_ID") == Some(Text("100"));
  }

  /** Of Ali's keys only "mathematics" is a subject. */
  lemma ExampleSubjectKeys()
    ensures SubjectKeys(Keys(ExampleRecord)) == ["mathematics"]
  {
    var keys := Keys(ExampleRecord);
    assert keys == ["Student_ID", "name", "mathematics", "total"];
    assert SubjectKeys(keys[3..]) == [];
    assert keys[2..][1..] == keys[3..];
    assert SubjectKeys(keys[2..]) == ["mathematics"];
    assert keys[1..][1..] == keys[2..];
  }

  /** Ali's one subject row: mathematics, with its configured label and icon, and 90. */
  lemma ExampleRows()
    ensures RenderCard(ExampleRecord).rows == [Row("mathematics", "الرياضيات", "fa-calculator", Num(90))]
  {
    ExampleSubjectKeys();
    ExampleMathematics();
    assert RowFor(ExampleRecord, "mathematics") == Row("mathematics", "الرياضيات", "fa-calculator", Num(90));
  }

  /** Ali's mathematics field: a configured subject with the score 90. */
  lemma ExampleMathematics()
    ensures DisplayFor("mathematics") == Display("الرياضيات", "fa-calculator")
    ensures Get(ExampleRecord, "mathematics") == Some(Num(90))
  {
    assert ExampleRecord[2] == ("mathematics", Num(90));
    assert ExampleRecord[2..][0] == ("mathematics", Num(90));
  }

  /** Ali's name cell and total cell. */
  lemma ExampleNameAndTotal()
    ensures RenderCard(ExampleRecord).name == "Ali" && RenderCard(ExampleRecord).total == CountUp(90.0)
  {
    assert Get(ExampleRecord, "name") == Some(Text("Ali"));
    assert Get(ExampleRecord, "total") == Some(Num(90));
  }

  /** Ali's card: one mathematics row of 90 and a total counting up to 90. */
  lemma ExampleCard()
    ensures RenderCard(ExampleRecord) ==
      Card("Ali", [Row("mathematics", "الرياضيات", "fa-calculator", Num(90))], CountUp(90.0))
  {
    ExampleRows();
    ExampleNameAndTotal();
  }

  /** The typed " 100 " is looked up as "100". */
  lemma ExampleTrim()
    ensures Trim(" 100 ") == "100"
  {
    TrimPadded("100");
    assert " " + "100" + " " == " 100 ";
  }

  /** Searching G1 for " 100 " renders Ali's card. */
  lemma ExampleFound()
    ensures Decide("G1", " 100 ", Some(ExampleDataset)) == Found(ExampleRecord)
  {
    ExampleTrim();
    ExampleIdMatches("100");
  }

  /** Searching G1 for "999" reports "not found" (which hides the result panel). */
  lemma ExampleNotFound()
    ensures Decide("G1", "999", Some(ExampleDataset)) == NotFound
  {
    TrimUnpadded("999");
    ExampleIdMatches("999");
  }
}
