// The table of configuration parameters (src/configure_override.h): an identity is its index.

module Identities {
  import opened Common
  import opened CStrings

  datatype Kind = NoSupport | Bool | UInt16 | UInt32 | Text | ListOf

  datatype Identity = Identity(name: string, kind: Kind)

  // inputMode and rttBase are the indices of "input.mode" and "session-report.rtt-base", whose values are names;
  // lists are those of the list parameters that can be overridden.
  datatype Table = Table(identities: seq<Identity>, inputMode: nat, rttBase: nat, lists: set<nat>)

  // conf_get_identity_from_string: the first entry of that name.
  function Lookup(ids: seq<Identity>, name: string): (r: Option<nat>)
    ensures r.Some? ==> r.value < |ids| && ids[r.value].name == name && forall k :: 0 <= k < r.value ==> ids[k].name != name
    ensures r == None ==> forall k :: 0 <= k < |ids| ==> ids[k].name != name
  {
    if ids == [] then None
    else if ids[0].name == name then Some(0)
    else
      var r := Lookup(ids[1..], name);
      assert forall k :: 1 <= k < |ids| ==> ids[k] == ids[1..][k - 1];
      if r.Some? then Some(r.value + 1) else None
  }

  // conf_validate_data_value. A value of a numeric parameter is never refused: the branch that
  // meets a non-digit returns 0, which is the null pointer that means "valid".
  predicate ValidValue(t: Table, id: nat, value: string)
    requires id < |t.identities|
  {
    if id == t.inputMode then value == "ONLINE" || value == "OFFLINE"
    else if t.identities[id].kind == Bool then value == "true" || value == "false"
    else true
  }

  // The values that the control process lets through: those of the input mode and of switches are these.
  predicate Allowed(table: Table, ident: nat, value: string)
    requires ident < |table.identities|
  {
    && (ident == table.inputMode ==> value == "ONLINE" || value == "OFFLINE")
    && (ident != table.inputMode && table.identities[ident].kind == Bool ==> value == "true" || value == "false")
  }

  // conf_override_element_by_id: whether a value is taken over. Identity 0 is "no-support" and has no field.
  predicate Overridable(t: Table, id: nat, value: string)
    requires id < |t.identities|
  {
    if id == 0 then false
    else if id == t.inputMode then value == "ONLINE" || value == "OFFLINE"
    else if id == t.rttBase then value == "PREFER_SENDER" || value == "SENDER" || value == "CAPTOR"
    else if t.identities[id].kind == ListOf then id in t.lists
    else t.identities[id].kind != NoSupport
  }

  // Validation and override disagree: a value that passed is refused afterwards exactly if it is no name for
  // the base of round trips, or is for a list parameter that cannot be overridden.
  lemma RefusedAfterValidation(t: Table, id: nat, value: string)
    requires 0 < id < |t.identities| && t.identities[id].kind != NoSupport && ValidValue(t, id, value)
    ensures !Overridable(t, id, value) <==>
              && id != t.inputMode
              && if id == t.rttBase then value != "PREFER_SENDER" && value != "SENDER" && value != "CAPTOR"
                 else t.identities[id].kind == ListOf && id !in t.lists
  {
  }

  predicate IsNumber(value: string) {
    forall k :: 0 <= k < |value| ==> '0' <= value[k] <= '9'
  }

  // What the validation is written for: that numeric values are numbers.
  predicate IntendedValue(t: Table, id: nat, value: string)
    requires id < |t.identities|
  {
    ValidValue(t, id, value)
    && (id != t.inputMode && (t.identities[id].kind == UInt16 || t.identities[id].kind == UInt32) ==> IsNumber(value))
  }

  // It accepts what it should refuse exactly if a numeric parameter, other than the input mode, gets something else.
  lemma NumberNeverRefused(t: Table, id: nat, value: string)
    requires id < |t.identities|
    ensures ValidValue(t, id, value) && !IntendedValue(t, id, value) <==>
              id != t.inputMode && (t.identities[id].kind == UInt16 || t.identities[id].kind == UInt32) && !IsNumber(value)
  {
  }
}
