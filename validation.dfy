/** `validate_variables`: naming and emptiness rules on one document's variables. */
module Validation {
  import opened Results
  import opened Text
  import opened Values
  import opened Diagnostics

  /** The three rules for one variable, checked in the source's order: the key must equal its
      upper-case form, a string value must not be empty, a list must hold no empty string. */
  function EntryProblem(e: Entry<Value>): (r: Option<Error>)
    ensures r.Some? ==> r.value.NotUppercase? || r.value.EmptyString? || r.value.EmptyInList?
    ensures r.Some? ==> r.value.key == e.key
  {
    if e.key != Upper(e.key) then Some(NotUppercase(e.key))
    else match e.val
      case One(v) => if v == Str("") then Some(EmptyString(e.key)) else None
      case Many(items) => if Str("") in items then Some(EmptyInList(e.key)) else None
  }

  /** The first entry, in mapping order, that breaks a rule. */
  function FirstProblem(m: seq<Entry<Value>>): (r: Option<Error>)
    ensures r.None? <==> forall i :: 0 <= i < |m| ==> EntryProblem(m[i]).None?
    ensures r.Some? ==> exists i :: 0 <= i < |m| && EntryProblem(m[i]) == r
                          && forall j :: 0 <= j < i ==> EntryProblem(m[j]).None?
  {
    if m == [] then None
    else
      var here := EntryProblem(m[0]);
      if here.Some? then here
      else
        var r := FirstProblem(m[1..]);
        assert forall i :: 1 <= i < |m| ==> m[i] == m[1..][i - 1];
        if r.Some? then
          var i :| 0 <= i < |m[1..]| && EntryProblem(m[1..][i]) == r
                   && forall j :: 0 <= j < i ==> EntryProblem(m[1..][j]).None?;
          assert EntryProblem(m[i + 1]) == r;
          r
        else r
  }

  /** `validate_variables(config.get('variables', {}))`: an absent, null or empty mapping
      passes; otherwise the first problem is raised. */
  function ValidateVariables(vars: Field<Dict<Value>>): (r: Option<Error>)
    ensures vars.Absent? || vars.Null? || vars == Given([]) ==> r.None?
    ensures vars.Given? ==> r == FirstProblem(vars.value)
  {
    match vars
    case Given(m) => FirstProblem(m)
    case _ => None
  }

  /** Which rule an entry breaks, stated through the characters of its key and the shape of its
      value: ints, booleans, other scalars, non-empty strings and lists without an empty string
      all pass under an upper-case key. */
  lemma EntryRules(e: Entry<Value>)
    ensures EntryProblem(e) == Some(NotUppercase(e.key)) <==>
              exists i :: 0 <= i < |e.key| && IsLowerAscii(e.key[i])
    ensures (forall i :: 0 <= i < |e.key| ==> !IsLowerAscii(e.key[i])) ==>
              (EntryProblem(e) == Some(EmptyString(e.key)) <==> e.val == One(Str("")))
              && (EntryProblem(e) == Some(EmptyInList(e.key)) <==> e.val.Many? && Str("") in e.val.items)
              && (EntryProblem(e).None? <==> match e.val
                                              case One(v) => v != Str("")
                                              case Many(items) => Str("") !in items)
  {
    UpperFixedIff(e.key);
  }
}
