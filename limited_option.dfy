/**
 * The limited-choice command-line value of `pkg/cmd/flag/limited_option.go`: a flag value that
 * accepts only one of a fixed list of names, each with an abbreviation. Every value built from one
 * list shares that list, so it can validate a new setting and describe the choices.
 */
module LimitedOption {
  import opened Wrappers
  import opened GoStrings

  /** One admissible choice. */
  datatype Choice = Choice(Name: string, Abbrev: string)

  /** `CreateOptions`: consecutive (name, abbreviation) pairs, in order. */
  method CreateOptions(namesAndAbbrevs: seq<string>) returns (values: seq<Choice>)
    requires |namesAndAbbrevs| % 2 == 0
    ensures |values| == |namesAndAbbrevs| / 2
    ensures forall k :: 0 <= k < |values| ==> values[k] == Choice(namesAndAbbrevs[2 * k], namesAndAbbrevs[2 * k + 1])
  {
    values := [];
    var i := 0;
    while i < |namesAndAbbrevs|
      invariant 0 <= i <= |namesAndAbbrevs| && i % 2 == 0 && |values| == i / 2
      invariant forall k :: 0 <= k < |values| ==> values[k] == Choice(namesAndAbbrevs[2 * k], namesAndAbbrevs[2 * k + 1])
    {
      values := values + [Choice(namesAndAbbrevs[i], namesAndAbbrevs[i + 1])];
      i := i + 2;
    }
  }

  /** The names and abbreviations laid out again as the flat list they came from. */
  function Flatten(values: seq<Choice>): (r: seq<string>)
    ensures |r| == 2 * |values|
  {
    if |values| == 0 then [] else [values[0].Name, values[0].Abbrev] + Flatten(values[1..])
  }

  /** The options are exactly the pairs of the list: flattening them gives the list back. */
  lemma {:induction false} FlattenCreated(namesAndAbbrevs: seq<string>, values: seq<Choice>)
    requires |namesAndAbbrevs| % 2 == 0 && |values| == |namesAndAbbrevs| / 2
    requires forall k :: 0 <= k < |values| ==> values[k] == Choice(namesAndAbbrevs[2 * k], namesAndAbbrevs[2 * k + 1])
    ensures Flatten(values) == namesAndAbbrevs
  {
    if |values| > 0 {
      var rest := namesAndAbbrevs[2..];
      assert forall k :: 0 <= k < |values| - 1 ==> values[1..][k] == values[k + 1] && rest[2 * k] == namesAndAbbrevs[2 * (k + 1)] && rest[2 * k + 1] == namesAndAbbrevs[2 * (k + 1) + 1];
      FlattenCreated(rest, values[1..]);
      assert namesAndAbbrevs == [namesAndAbbrevs[0], namesAndAbbrevs[1]] + rest;
    }
  }

  /** The first choice, in declaration order, named or abbreviated `v`. */
  function FirstChoice(avail: seq<Choice>, v: string): (k: Option<nat>)
    ensures k.Some? ==> (k.value < |avail| && (avail[k.value].Name == v || avail[k.value].Abbrev == v)
      && forall j :: 0 <= j < k.value ==> avail[j].Name != v && avail[j].Abbrev != v)
    ensures k.None? ==> forall j :: 0 <= j < |avail| ==> avail[j].Name != v && avail[j].Abbrev != v
  {
    if |avail| == 0 then None
    else if avail[0].Name == v || avail[0].Abbrev == v then Some(0)
    else
      var k := FirstChoice(avail[1..], v);
      if k.Some? then Some(k.value + 1) else None
  }

  /** The hint for one choice: "name (abbrev)". */
  function HintOf(c: Choice): string
  {
    c.Name + " (" + c.Abbrev + ")"
  }

  function Hints(avail: seq<Choice>): (r: seq<string>)
    ensures |r| == |avail| && forall k :: 0 <= k < |avail| ==> r[k] == HintOf(avail[k])
  {
    if |avail| == 0 then [] else Hints(avail[..|avail| - 1]) + [HintOf(avail[|avail| - 1])]
  }

  /** The value bound to a flag: the current choice and the list it may take values from. */
  class NameAndAbbrev {
    var name: string
    var abbrev: string
    const avail: seq<Choice>

    /** A copy of one of the created options, as bound to a flag. */
    constructor (values: seq<Choice>, k: nat)
      requires k < |values|
      ensures name == values[k].Name && abbrev == values[k].Abbrev && avail == values
    {
      name := values[k].Name;
      abbrev := values[k].Abbrev;
      avail := values;
    }

    /** `String`: the current name. */
    function String(): (s: string)
      reads this
      ensures s == name
    {
      name
    }

    /** `Type`: "name (or abbrev)". */
    function Type(): (s: string)
      reads this
      ensures s == name + " (or " + abbrev + ")"
    {
      name + " (or " + abbrev + ")"
    }

    /** `Hint`: every choice as "name (abbrev)", joined with ", " in declaration order. */
    method Hint() returns (s: string)
      ensures s == Join(Hints(avail), ", ")
    {
      var hints: seq<string> := [];
      var i := 0;
      while i < |avail|
        invariant 0 <= i <= |avail|
        invariant hints == Hints(avail[..i])
      {
        assert avail[..i + 1][..i] == avail[..i];
        hints := hints + [avail[i].Name + " (" + avail[i].Abbrev + ")"];
        i := i + 1;
      }
      assert avail[..i] == avail;
      s := Join(hints, ", ");
    }

    /**
     * `Set`: the first choice named or abbreviated `v` becomes the value; any other string is
     * refused with the hint and leaves the value as it was.
     */
    method Set(v: string) returns (err: Option<string>)
      modifies this
      ensures FirstChoice(avail, v).Some? ==> (err.None?
        && name == avail[FirstChoice(avail, v).value].Name && abbrev == avail[FirstChoice(avail, v).value].Abbrev)
      ensures FirstChoice(avail, v).None? ==> (err == Some("must be one of " + Join(Hints(avail), ", "))
        && name == old(name) && abbrev == old(abbrev))
    {
      var i := 0;
      while i < |avail|
        invariant 0 <= i <= |avail|
        invariant forall j :: 0 <= j < i ==> avail[j].Name != v && avail[j].Abbrev != v
      {
        if v == avail[i].Name || v == avail[i].Abbrev {
          name := avail[i].Name;
          abbrev := avail[i].Abbrev;
          return None;
        }
        i := i + 1;
      }
      var hint := Hint();
      return Some("must be one of " + hint);
    }
  }

  /** Setting a choice's own name, or its abbreviation when no earlier choice uses it, selects that choice. */
  lemma SetSelects(avail: seq<Choice>, k: nat, v: string)
    requires k < |avail| && (v == avail[k].Name || v == avail[k].Abbrev)
    requires forall j :: 0 <= j < k ==> avail[j].Name != v && avail[j].Abbrev != v
    ensures FirstChoice(avail, v) == Some(k)
  {
    var f := FirstChoice(avail, v);
    assert f.Some?;
    assert !(f.value < k);
    assert !(f.value > k);
  }

  /** `CompletionFor`: the completions are the names, in order. */
  function Completions(values: seq<Choice>): (r: seq<string>)
    ensures |r| == |values| && forall k :: 0 <= k < |values| ==> r[k] == values[k].Name
  {
    if |values| == 0 then [] else [values[0].Name] + Completions(values[1..])
  }
}
