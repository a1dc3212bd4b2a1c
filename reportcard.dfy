/**
 * What `renderCard` puts on the report card for one matched record: the
 * student's name, one table row per subject field, and the total cell.
 */
module ReportCard {
  import opened Wrappers
  import opened Records

  /** A subject's display label (`caption`, since `label` is a Dafny keyword) and Font Awesome icon class. */
  datatype Display = Display(caption: string, icon: string)

  /** `subjectConfig`: the labels and icons of the known subject codes. */
  const SubjectConfig: map<string, Display> := map[
    "Arabic" := Display("اللغة العربية", "fa-book"),
    "mathematics" := Display("الرياضيات", "fa-calculator"),
    "english" := Display("اللغة الإنجليزية", "fa-language"),
    "Multidisciplinary" := Display("اكتشف (المتعدد)", "fa-puzzle-piece"),
    "Religious_Education" := Display("التربية الدينية", "fa-mosque"),
    "physical_education" := Display("التربية الرياضية", "fa-person-running"),
    "Tokatsu_activities" := Display("أنشطة التوكاسو", "fa-users-gear"),
    "connet_plus" := Display("مستوي رفيع انجليزي", "fa-plus-circle"),
    "connect_plus" := Display("مستوي رفيع انجليزي", "fa-plus-circle"),
    "Health_education" := Display("التربية الصحية", "fa-heart-pulse"),
    "Sciences" := Display("العلوم", "fa-flask-vial"),
    "Social_Studies" := Display("الدراسات الاجتماعية", "fa-earth-africa"),
    "Professional_skills" := Display("المهارات المهنية", "fa-screwdriver-wrench"),
    "technology" := Display("التكنولوجيا", "fa-laptop-code"),
    "art" := Display("التربية الفنية", "fa-palette")
  ]

  /** The icon of a subject code that `subjectConfig` does not know. */
  const FallbackIcon := "fa-star"

  /** `excludeKeys`: the identity and total fields, which get no subject row. */
  const ReservedKeys: seq<string> := ["id", "name", "Student_ID", "total"]

  /** `excludeKeys.includes(key)`. */
  predicate IsReserved(key: string)
  {
    key in ReservedKeys
  }

  /**
   * The properties every object literal inherits from `Object.prototype`.
   * `subjectConfig[key]` finds these too: each is a function, or for
   * `__proto__` the prototype object itself, so the lookup is truthy.
   */
  const InheritedKeys: set<string> := {
    "constructor", "hasOwnProperty", "isPrototypeOf", "propertyIsEnumerable",
    "toLocaleString", "toString", "valueOf", "__proto__",
    "__defineGetter__", "__defineSetter__", "__lookupGetter__", "__lookupSetter__"
  }

  /** What a template literal writes for a missing property. */
  const UndefinedText := "undefined"

  /**
   * `subjectConfig[key] || { label: key, icon: "fa-star" }`, then `.label`
   * and `.icon`. An inherited member has neither property, so both read as
   * `undefined`.
   */
  function DisplayFor(key: string): (d: Display)
  {
    if key in SubjectConfig then SubjectConfig[key]
    else if key in InheritedKeys then Display(UndefinedText, UndefinedText)
    else Display(key, FallbackIcon)
  }

  /**
   * A configured code gets its configured label and icon; a code named like
   * an inherited member of `Object.prototype` shows "undefined" for both; any
   * other code gets its own name as label and the star icon. No configured
   * subject uses the star, so the star appears exactly for the last kind.
   */
  lemma DisplayFallback(key: string)
    ensures key in SubjectConfig ==> DisplayFor(key) == SubjectConfig[key]
    ensures key !in SubjectConfig && key in InheritedKeys ==> DisplayFor(key) == Display(UndefinedText, UndefinedText)
    ensures key !in SubjectConfig && key !in InheritedKeys ==> DisplayFor(key) == Display(key, FallbackIcon)
    ensures DisplayFor(key).icon == FallbackIcon <==> key !in SubjectConfig && key !in InheritedKeys
  {
    if key in SubjectConfig {
      assert SubjectConfig[key].icon != FallbackIcon;
    }
  }

  /** `keys.filter(key => !excludeKeys.includes(key))`. */
  function SubjectKeys(keys: seq<string>): (ks: seq<string>)
    ensures |ks| <= |keys|
    ensures forall k :: k in ks ==> k in keys && !IsReserved(k)
  {
    if keys == [] then []
    else (if IsReserved(keys[0]) then [] else [keys[0]]) + SubjectKeys(keys[1..])
  }

  /**
   * The filter keeps exactly the non-reserved keys, in their original order:
   * `idx` lists, strictly increasing, the positions of the kept keys, and
   * every position holding a non-reserved key is among them.
   */
  lemma {:induction false} SubjectKeysSelect(keys: seq<string>) returns (idx: seq<nat>)
    ensures IsSelection(keys, SubjectKeys(keys), idx)
  {
    if keys == [] {
      idx := [];
    } else {
      var rest := SubjectKeysSelect(keys[1..]);
      idx := ExtendSelection(keys, rest);
    }
  }

  /**
   * `idx` lists, strictly increasing, the positions in `keys` of the
   * elements of `kept`, and every position holding a non-reserved key is
   * among them.
   */
  ghost predicate IsSelection(keys: seq<string>, kept: seq<string>, idx: seq<nat>)
  {
    && |idx| == |kept|
    && (forall j :: 0 <= j < |idx| ==> idx[j] < |keys| && kept[j] == keys[idx[j]])
    && (forall j, j' :: 0 <= j < j' < |idx| ==> idx[j] < idx[j'])
    && (forall i :: 0 <= i < |keys| && !IsReserved(keys[i]) ==> i in idx)
  }

  /** The induction step of SubjectKeysSelect: from the tail's positions to the whole sequence's. */
  lemma ExtendSelection(keys: seq<string>, rest: seq<nat>) returns (idx: seq<nat>)
    requires keys != [] && IsSelection(keys[1..], SubjectKeys(keys[1..]), rest)
    ensures IsSelection(keys, SubjectKeys(keys), idx)
  {
    var tail := SubjectKeys(keys[1..]);
    var shifted := Shift(rest);
    ShiftSelection(keys, tail, rest);
    if IsReserved(keys[0]) {
      idx := shifted;
      assert SubjectKeys(keys) == tail;
    } else {
      idx := [0] + shifted;
      assert SubjectKeys(keys) == [keys[0]] + tail;
      PrependSelection(keys, tail, shifted);
    }
  }

  /** Positions in the tail, shifted by one, are positions in the whole sequence. */
  lemma ShiftSelection(keys: seq<string>, tail: seq<string>, rest: seq<nat>)
    requires keys != [] && IsSelection(keys[1..], tail, rest)
    ensures |Shift(rest)| == |tail|
    ensures forall j :: 0 <= j < |tail| ==> Shift(rest)[j] < |keys| && tail[j] == keys[Shift(rest)[j]]
    ensures forall j, j' :: 0 <= j < j' < |tail| ==> Shift(rest)[j] < Shift(rest)[j']
    ensures forall i :: 1 <= i < |keys| && !IsReserved(keys[i]) ==> i in Shift(rest)
    ensures IsReserved(keys[0]) ==> IsSelection(keys, tail, Shift(rest))
  {
    var shifted := Shift(rest);
    forall j | 0 <= j < |shifted| ensures shifted[j] < |keys| && tail[j] == keys[shifted[j]] {
      assert keys[1..][rest[j]] == keys[rest[j] + 1];
    }
    forall i | 1 <= i < |keys| && !IsReserved(keys[i]) ensures i in shifted {
      assert keys[1..][i - 1] == keys[i];
      assert i - 1 in rest;
      var j :| 0 <= j < |rest| && rest[j] == i - 1;
      assert shifted[j] == i;
    }
  }

  /** A kept first key goes in front of the shifted tail positions. */
  lemma PrependSelection(keys: seq<string>, tail: seq<string>, shifted: seq<nat>)
    requires keys != [] && !IsReserved(keys[0]) && |shifted| == |tail|
    requires forall j :: 0 <= j < |tail| ==> 0 < shifted[j] < |keys| && tail[j] == keys[shifted[j]]
    requires forall j, j' :: 0 <= j < j' < |tail| ==> shifted[j] < shifted[j']
    requires forall i :: 1 <= i < |keys| && !IsReserved(keys[i]) ==> i in shifted
    ensures IsSelection(keys, [keys[0]] + tail, [0] + shifted)
  {
    var idx := [0] + shifted;
    forall i | 0 <= i < |keys| && !IsReserved(keys[i]) ensures i in idx {
      if i > 0 {
        var j :| 0 <= j < |shifted| && shifted[j] == i;
        assert idx[j + 1] == i;
      }
    }
  }

  /** Adds one to every position (the positions of a tail, seen from the whole sequence). */
  function Shift(ps: seq<nat>): (qs: seq<nat>)
    ensures |qs| == |ps|
    ensures forall j :: 0 <= j < |ps| ==> qs[j] == ps[j] + 1 && qs[j] > 0
    ensures (forall j, j' :: 0 <= j < j' < |ps| ==> ps[j] < ps[j']) ==>
            (forall j, j' :: 0 <= j < j' < |qs| ==> qs[j] < qs[j'])
  {
    seq(|ps|, j requires 0 <= j < |ps| => ps[j] + 1)
  }

  /** One row of the subjects table. */
  datatype Row = Row(key: string, caption: string, icon: string, value: Value)

  /** The row for one subject key: its display and `data[key]`. */
  function RowFor(rec: Record, key: string): (row: Row)
    requires key in Keys(rec)
  {
    var d := DisplayFor(key);
    var v := Get(rec, key);
    assert v.Some? by {
      var i :| 0 <= i < |rec| && Keys(rec)[i] == key;
    }
    Row(key, d.caption, d.icon, v.value)
  }

  /** `subjectKeys.map(...)`: one row per subject key. */
  function SubjectRows(rec: Record): (rows: seq<Row>)
  {
    var ks := SubjectKeys(Keys(rec));
    seq(|ks|, j requires 0 <= j < |ks| => RowFor(rec, ks[j]))
  }

  /**
   * The subject rows of a record are exactly its non-reserved fields, in
   * key order, one row each; each row carries the field's key and value and
   * the display `DisplayFor` gives its key.
   */
  lemma SubjectRowsSpec(rec: Record) returns (idx: seq<nat>)
    requires DistinctKeys(rec)
    ensures |SubjectRows(rec)| == |idx|
    ensures forall j, j' :: 0 <= j < j' < |idx| ==> idx[j] < idx[j']
    ensures forall i :: 0 <= i < |rec| && !IsReserved(rec[i].0) ==> i in idx
    ensures forall j :: 0 <= j < |idx| ==> idx[j] < |rec| && !IsReserved(rec[idx[j]].0)
    ensures forall j :: 0 <= j < |idx| ==>
      SubjectRows(rec)[j] == Row(rec[idx[j]].0, DisplayFor(rec[idx[j]].0).caption,
                                 DisplayFor(rec[idx[j]].0).icon, rec[idx[j]].1)
  {
    var keys := Keys(rec);
    idx := SubjectKeysSelect(keys);
    var ks := SubjectKeys(keys);
    forall i | 0 <= i < |rec| && !IsReserved(rec[i].0) ensures i in idx {
      assert keys[i] == rec[i].0;
    }
    forall j | 0 <= j < |idx|
      ensures !IsReserved(rec[idx[j]].0)
      ensures SubjectRows(rec)[j] == Row(rec[idx[j]].0, DisplayFor(rec[idx[j]].0).caption,
                                         DisplayFor(rec[idx[j]].0).icon, rec[idx[j]].1)
    {
      assert ks[j] == rec[idx[j]].0;
      assert ks[j] in ks;
      GetField(rec, idx[j]);
    }
  }

  /** What the total cell shows. */
  datatype TotalView =
    | Dash                       // `total` is absent: the cell shows "-"
    | CountUp(target: real)      // the cell counts up to a numeric total
    | CountUpParsed(text: string) // the cell counts up to `parseFloat(text)`, which is not evaluated here

  /**
   * The total branch of `renderCard`: "-" when `total` is undefined,
   * otherwise a count-up to the total's numeric value.
   */
  function TotalViewOf(rec: Record): (t: TotalView)
    ensures t.Dash? <==> Get(rec, "total").None?
    ensures t.CountUp? <==> Get(rec, "total").Some? && Get(rec, "total").value.Num?
    ensures t.CountUp? ==> t.target == Get(rec, "total").value.n as real
    ensures t.CountUpParsed? ==> Get(rec, "total") == Some(Text(t.text))
  {
    match Get(rec, "total")
    case None => Dash
    case Some(Num(n)) => CountUp(n as real)
    case Some(Text(s)) => CountUpParsed(s)
  }

  /** The report card as rendered: the name text, the subject rows and the total cell. */
  datatype Card = Card(name: string, rows: seq<Row>, total: TotalView)

  /**
   * `studentName.textContent = data.name`: a present name shows as its text;
   * an absent one (`undefined`, which `textContent` takes as null) leaves the
   * cell empty.
   */
  function NameText(rec: Record): (s: string)
    ensures Get(rec, "name").None? ==> s == ""
    ensures Get(rec, "name").Some? ==> s == DisplayText(Get(rec, "name").value)
    ensures Get(rec, "name").Some? && Get(rec, "name").value.Text? ==> s == Get(rec, "name").value.s
  {
    match Get(rec, "name")
    case None => ""
    case Some(v) => DisplayText(v)
  }

  /** `renderCard(data)`: the name, the subject rows and the total cell of one record. */
  function RenderCard(rec: Record): (c: Card)
  {
    Card(NameText(rec), SubjectRows(rec), TotalViewOf(rec))
  }
}
