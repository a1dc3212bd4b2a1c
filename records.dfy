/**
 * Student records as the JSON dataset holds them. A record is a JavaScript
 * object; it is modelled as the ordered list of its fields so that the key
 * order `Object.keys` reports is explicit.
 */
module Records {
  import opened Wrappers

  /** A field value: a JSON number (the dataset's scores and IDs are whole numbers) or a JSON string. */
  datatype Value = Num(n: int) | Text(s: string)

  type Field = (string, Value)

  /** One student record, fields in key order. */
  type Record = seq<Field>

  /** `Object.keys(rec)`: the record's keys, in field order. */
  function Keys(rec: Record): seq<string>
  {
    seq(|rec|, i requires 0 <= i < |rec| => rec[i].0)
  }

  /** A JavaScript object never holds the same key twice. */
  predicate DistinctKeys(rec: Record)
  {
    forall i, j :: 0 <= i < j < |rec| ==> rec[i].0 != rec[j].0
  }

  /** `rec[key]`: the value stored under `key`, or None for `undefined`. */
  function Get(rec: Record, key: string): (r: Option<Value>)
    ensures r.None? <==> forall i :: 0 <= i < |rec| ==> rec[i].0 != key
  {
    if rec == [] then None
    else if rec[0].0 == key then Some(rec[0].1)
    else Get(rec[1..], key)
  }

  /**
   * `Object.keys` lists exactly the keys under which `rec[key]` is defined,
   * and, as an object holds each key once, lists each of them once.
   */
  lemma KeysSpec(rec: Record)
    ensures |Keys(rec)| == |rec|
    ensures forall k :: k in Keys(rec) <==> Get(rec, k).Some?
    ensures DistinctKeys(rec) ==> forall i, j :: 0 <= i < j < |Keys(rec)| ==> Keys(rec)[i] != Keys(rec)[j]
  {
    forall k | Get(rec, k).Some? ensures k in Keys(rec) {
      var i :| 0 <= i < |rec| && rec[i].0 == k;
      assert Keys(rec)[i] == k;
    }
  }

  /** In a record with distinct keys, looking up a field's key yields that field's value. */
  lemma {:induction false} GetField(rec: Record, i: nat)
    requires DistinctKeys(rec) && i < |rec|
    ensures Get(rec, rec[i].0) == Some(rec[i].1)
  {
    if i > 0 {
      assert rec[0].0 != rec[i].0;
      assert rec[1..][i - 1] == rec[i];
      GetField(rec[1..], i - 1);
    }
  }

  function Digit(d: nat): (c: char)
    requires d < 10
    ensures '0' <= c <= '9'
  {
    ('0' as int + d) as char
  }

  /** The decimal rendering of a natural number, most significant digit first. */
  function NaturalText(n: nat): (s: string)
    ensures |s| >= 1
    ensures forall i :: 0 <= i < |s| ==> '0' <= s[i] <= '9'
    decreases n
  {
    if n < 10 then [Digit(n)] else NaturalText(n / 10) + [Digit(n % 10)]
  }

  /** The number a string of decimal digits denotes. */
  function DecimalValue(s: string): nat
    requires forall i :: 0 <= i < |s| ==> '0' <= s[i] <= '9'
  {
    if s == [] then 0 else DecimalValue(s[..|s| - 1]) * 10 + (s[|s| - 1] as int - '0' as int)
  }

  /**
   * NaturalText writes the number itself, with no leading zero: the shortest
   * decimal form, which is how JavaScript writes a whole number.
   */
  lemma {:induction false} NaturalTextValue(n: nat)
    ensures DecimalValue(NaturalText(n)) == n
    ensures NaturalText(n)[0] == '0' <==> n == 0
    decreases n
  {
    if n >= 10 {
      var t := NaturalText(n / 10);
      NaturalTextValue(n / 10);
      var s := NaturalText(n);
      assert s == t + [Digit(n % 10)];
      assert s[..|s| - 1] == t;
      assert s[0] == t[0];
    }
  }

  /** JavaScript's string form of a whole number. */
  function NumberText(n: int): (s: string)
    ensures |s| >= 1
  {
    if n < 0 then "-" + NaturalText(-n) else NaturalText(n)
  }

  /**
   * NumberText is the sign, when negative, followed by the shortest decimal
   * form of the magnitude.
   */
  lemma NumberTextSpec(n: int)
    ensures n >= 0 ==> NumberText(n) == NaturalText(n) && DecimalValue(NumberText(n)) == n
    ensures n < 0 ==> NumberText(n) == ['-'] + NaturalText(-n) && DecimalValue(NumberText(n)[1..]) == -n
    ensures NumberText(n)[0] == '0' <==> n == 0
  {
    if n < 0 {
      NaturalTextValue(-n);
      assert NumberText(n)[1..] == NaturalText(-n);
    } else {
      NaturalTextValue(n);
    }
  }

  /** The text a value shows when written into `textContent` or a template. */
  function DisplayText(v: Value): (s: string)
    ensures v.Text? ==> s == v.s
  {
    match v
    case Num(n) => NumberText(n)
    case Text(t) => t
  }
}
