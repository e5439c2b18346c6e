/** JSON values, as `encoding/json` sees them once lexed. Object keys are unique; a number keeps its text. */
module Json {
  import opened Wrappers

  datatype Json =
    | Null
    | Bool(b: bool)
    | Number(text: string)
    | String(s: string)
    | Array(items: seq<Json>)
    | Object(fields: map<string, Json>)

  function Lookup(fields: map<string, Json>, key: string): Option<Json> {
    if key in fields then Some(fields[key]) else None
  }

  /** A Go slice of strings: None is nil. */
  type Strings = Option<seq<string>>

  predicate Empty(s: Strings) {
    s.None? || s.value == []
  }

  function FromStrings(l: seq<string>): Json {
    Array(seq(|l|, i requires 0 <= i < |l| => String(l[i])))
  }

  /** Decoding into a string: null leaves it empty. */
  function ToStr(j: Json): Option<string> {
    match j
    case Null => Some("")
    case String(s) => Some(s)
    case _ => None
  }

  function ToElements(items: seq<Json>): Option<seq<string>> {
    if items == [] then Some([])
    else if ToStr(items[0]).None? || ToElements(items[1..]).None? then None
    else Some([ToStr(items[0]).value] + ToElements(items[1..]).value)
  }

  datatype Decoded<+T> = Ok(value: T) | Mistyped

  /** Decoding into a slice of strings: null is nil, a list is itself, anything else fails. */
  function ToStrings(j: Json): Decoded<Strings> {
    match j
    case Null => Ok(None)
    case Array(items) => if ToElements(items).None? then Mistyped else Ok(Some(ToElements(items).value))
    case _ => Mistyped
  }

  lemma {:induction false} ElementsRoundTrip(l: seq<string>)
    ensures ToElements(FromStrings(l).items) == Some(l)
  {
    if l == [] {
    } else {
      assert FromStrings(l).items[1..] == FromStrings(l[1..]).items;
      ElementsRoundTrip(l[1..]);
      assert l == [l[0]] + l[1..];
    }
  }

  lemma StringsRoundTrip(l: seq<string>)
    ensures ToStrings(FromStrings(l)) == Ok(Some(l))
  {
    ElementsRoundTrip(l);
  }

  /** A list decodes to strings exactly when each item is a string, or null, which stands for the empty one. */
  lemma {:induction false} ElementsExactly(items: seq<Json>, l: seq<string>)
    ensures ToElements(items) == Some(l) <==>
              |items| == |l| && forall i | 0 <= i < |l| :: items[i] == String(l[i]) || (items[i] == Null && l[i] == "")
  {
    if items == [] || l == [] {
    } else {
      ElementsExactly(items[1..], l[1..]);
      assert l == [l[0]] + l[1..];
      if ToElements(items) == Some(l) {
        assert ToElements(items).value[1..] == ToElements(items[1..]).value;
        forall i | 0 < i < |l| ensures items[i] == String(l[i]) || (items[i] == Null && l[i] == "") {
          assert items[i] == items[1..][i - 1] && l[i] == l[1..][i - 1];
        }
      }
      if |items| == |l| && forall i | 0 <= i < |l| :: items[i] == String(l[i]) || (items[i] == Null && l[i] == "") {
        assert ToElements(items[1..]) == Some(l[1..]);
      }
    }
  }

  lemma {:induction false} NoElements(items: seq<Json>)
    ensures ToElements(items).None? <==> exists i :: 0 <= i < |items| && !items[i].String? && !items[i].Null?
  {
    if items == [] {
    } else {
      NoElements(items[1..]);
      if ToElements(items[1..]).None? {
        var i :| 0 <= i < |items[1..]| && !items[1..][i].String? && !items[1..][i].Null?;
        assert !items[i + 1].String? && !items[i + 1].Null?;
      } else if i :| 0 <= i < |items| && !items[i].String? && !items[i].Null? {
        assert i > 0 ==> items[i] == items[1..][i - 1];
      }
    }
  }
}
