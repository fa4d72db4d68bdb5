/**
 * The patch engine of `pkg/template/template.go`: JSON-path lookup in a parsed resource, the
 * patch catalogue loaded from `.tpl`/`.var` files, and the variable merge done before a patch
 * template is rendered. Rendering the template, parsing JSON and applying the JSON patch are
 * inputs of the model.
 */
module PatchTemplate {
  import opened Wrappers
  import opened GoStrings

  /**
   * A decoded JSON value. A JSON `null` decodes to Go's nil, which a lookup cannot tell apart
   * from a missing member; it keeps its place in an array. A `JNumber` stands for any JSON
   * number (Go decodes numbers to `float64`); the lookups only carry numbers along.
   */
  datatype Json = JObject(Fields: map<string, Json>) | JArray(Items: seq<Json>) | JString(Str: string) | JNumber(Num: int) | JBool(Bool: bool) | JNull

  /** What a lookup yields for a member or element that is there: nothing when it is `null`. */
  function Found(j: Json): (o: Option<Json>)
    ensures o.None? <==> j.JNull?
    ensures o.Some? ==> o.value == j
  {
    if j.JNull? then None else Some(j)
  }

  predicate IsContainer(j: Json)
  {
    j.JObject? || j.JArray?
  }

  const InvalidPath := "given path is not valid"
  const InvalidSyntax := "invalid syntax"
  const OutOfRange := "value out of range"
  /** Indexing past an array panics in the code; the model reports it as this error. */
  const IndexOutOfRange := "index out of range"

  const MinInt64 := -0x8000_0000_0000_0000
  const MaxInt64 := 0x7FFF_FFFF_FFFF_FFFF

  /** Base-10 parsing into a 64-bit integer, with optional sign, as `strconv.ParseInt(s, 10, 0)` does. */
  function ParseInt(s: string): (r: Result<int>)
    ensures r.Ok? ==> MinInt64 <= r.value <= MaxInt64
    ensures |s| == 0 ==> r.Err?
    ensures IsDigits(s) && |s| > 0 && DigitsValue(s) <= MaxInt64 ==> r == Ok(DigitsValue(s))
  {
    var sign := if |s| > 0 && (s[0] == '+' || s[0] == '-') then 1 else 0;
    var digits := s[sign..];
    if |digits| == 0 || !IsDigits(digits) then Err(InvalidSyntax)
    else
      var n: int := DigitsValue(digits);
      var v := if sign == 1 && s[0] == '-' then -n else n;
      if v < MinInt64 || v > MaxInt64 then Err(OutOfRange) else Ok(v)
  }

  /** Every index of an array in 64-bit range is read back from its decimal text. */
  lemma ParseIndex(n: nat)
    requires n <= MaxInt64
    ensures ParseInt(FormatUint(n)) == Ok(n)
  {
    FormatUintRoundTrip(n);
  }

  /** One step of the walk: the member of an object or the element of an array the part names. */
  function Step(level: Json, part: string): Result<Option<Json>>
  {
    match level
    case JObject(fields) => Ok(if part in fields then Found(fields[part]) else None)
    case JArray(items) =>
      var p := ParseInt(part);
      if p.Err? then Err(p.error)
      else if 0 <= p.value < |items| then Ok(Found(items[p.value]))
      else Err(IndexOutOfRange)
    case _ => Ok(None)
  }

  /**
   * The walk along the parts: a container is descended into; anything else is the result when
   * it is met at the last part, and means nothing found when it is met earlier.
   */
  function Walk(level: Json, parts: seq<string>): Result<Option<Json>>
  {
    if |parts| == 0 then Ok(Some(level))
    else
      var l := Step(level, parts[0]);
      if l.Err? then Err(l.error)
      else if l.value.Some? && IsContainer(l.value.value) then Walk(l.value.value, parts[1..])
      else if |parts| == 1 then Ok(l.value)
      else Ok(None)
  }

  /** The value behind a path such as "/spec/template/metadata": everything before the first '/' is ignored. */
  function JsonValue(t: map<string, Json>, path: string): Result<Option<Json>>
  {
    var parts := Split(path, '/');
    if |parts| < 2 then Err(InvalidPath) else Walk(JObject(t), parts[1..])
  }

  /** `JSON.Value`: the loop that walks the path. */
  method Value(t: map<string, Json>, path: string) returns (r: Result<Option<Json>>)
    ensures r == JsonValue(t, path)
  {
    var parts := Split(path, '/');
    if |parts| < 2 {
      return Err(InvalidPath);
    }
    parts := parts[1..];
    var level := JObject(t);
    var i := 0;
    while i < |parts|
      invariant 0 <= i <= |parts|
      invariant Walk(JObject(t), parts) == Walk(level, parts[i..])
    {
      assert parts[i..][0] == parts[i] && parts[i..][1..] == parts[i + 1..];
      var l: Option<Json> := None;
      match level {
        case JObject(fields) =>
          if parts[i] in fields && !fields[parts[i]].JNull? {
            l := Some(fields[parts[i]]);
          }
        case JArray(items) =>
          var p := ParseInt(parts[i]);
          if p.Err? {
            return Err(p.error);
          }
          if p.value < 0 || p.value >= |items| {
            return Err(IndexOutOfRange);
          }
          if !items[p.value].JNull? {
            l := Some(items[p.value]);
          }
        case _ =>
      }
      if l.Some? && IsContainer(l.value) {
        level := l.value;
      } else {
        if i == |parts| - 1 {
          return Ok(l);
        }
        return Ok(None);
      }
      i := i + 1;
    }
    return Ok(Some(level));
  }

  /**
   * `JSON.Has`: the path leads to a value. Any error of the lookup answers false, except the
   * panic of indexing past an array, which `Has` does not catch.
   */
  function Has(t: map<string, Json>, path: string): (b: Result<bool>)
    ensures b.Err? <==> JsonValue(t, path) == Err(IndexOutOfRange)
    ensures b.Err? ==> b.error == IndexOutOfRange
    ensures b.Ok? ==> (b.value <==> JsonValue(t, path).Ok? && JsonValue(t, path).value.Some?)
  {
    var v := JsonValue(t, path);
    if v == Err(IndexOutOfRange) then Err(IndexOutOfRange) else Ok(v.Ok? && v.value.Some?)
  }

  /** Asking for an element of an empty array panics instead of answering false. */
  lemma HasPanicsPastEnd()
    ensures Has(map["a" := JArray([])], "/a/0") == Err(IndexOutOfRange)
  {
    var t := map["a" := JArray([])];
    assert FormatUint(0) == "0";
    assert "/a/0" == "" + ['/'] + ("a" + ['/'] + "0");
    SplitAtSep("", '/', "a" + ['/'] + "0");
    SplitAtSep("a", '/', "0");
    SplitNoSep("0", '/');
    assert Split("/a/0", '/')[1..] == ["a", "0"];
    assert ["a", "0"][1..] == ["0"];
    ParseIndex(0);
    assert Step(JArray([]), "0") == Err(IndexOutOfRange);
    assert Walk(JArray([]), ["0"]) == Err(IndexOutOfRange);
    assert Walk(JObject(t), ["a", "0"]) == Walk(JArray([]), ["0"]);
  }

  /** A path without a '/' is refused. */
  lemma NoSlashInvalid(t: map<string, Json>, path: string)
    requires '/' !in path
    ensures JsonValue(t, path) == Err(InvalidPath)
  {
    SplitNoSep(path, '/');
  }

  /** Whatever precedes the first '/' does not matter. */
  lemma FirstSegmentIgnored(t: map<string, Json>, a: string, b: string, rest: string)
    requires '/' !in a && '/' !in b
    ensures JsonValue(t, a + "/" + rest) == JsonValue(t, b + "/" + rest)
  {
    assert a + "/" + rest == a + ['/'] + rest;
    assert b + "/" + rest == b + ['/'] + rest;
    SplitAtSep(a, '/', rest);
    SplitAtSep(b, '/', rest);
  }

  /** "/key" is the member itself, container or not, and nothing when it is missing or `null`. */
  lemma TopLevelMember(t: map<string, Json>, key: string)
    requires '/' !in key
    ensures JsonValue(t, "/" + key) == Ok(if key in t then Found(t[key]) else None)
  {
    assert "/" + key == "" + ['/'] + key;
    SplitAtSep("", '/', key);
    SplitNoSep(key, '/');
    assert Split("/" + key, '/')[1..] == [key];
    assert [key][1..] == [];
    var l := Step(JObject(t), key);
    assert l == Ok(if key in t then Found(t[key]) else None);
    if l.value.Some? && IsContainer(l.value.value) {
      assert Walk(JObject(t), [key]) == Walk(t[key], []);
    }
  }

  /** Meeting a value that is no container before the last part finds nothing. */
  lemma ScalarBeforeEnd(level: Json, part: string, rest: seq<string>)
    requires |rest| > 0
    requires Step(level, part).Ok? && Step(level, part).value.Some? && !IsContainer(Step(level, part).value.value)
    ensures Walk(level, [part] + rest) == Ok(None)
  {
    assert ([part] + rest)[1..] == rest;
  }

  /** An object member is descended into by its key and an array by the decimal index. */
  lemma Descend(fields: map<string, Json>, key: string, items: seq<Json>, n: nat, rest: seq<string>)
    requires key in fields && fields[key] == JArray(items) && n < |items| && n <= MaxInt64
    ensures Walk(JObject(fields), [key, FormatUint(n)] + rest)
      == if IsContainer(items[n]) then Walk(items[n], rest) else if |rest| == 0 then Ok(Found(items[n])) else Ok(None)
  {
    assert [key, FormatUint(n)] + rest == [key] + ([FormatUint(n)] + rest);
    WalkInto(JObject(fields), key, JArray(items), [FormatUint(n)] + rest);
    DescendArray(items, n, rest);
  }

  lemma WalkInto(level: Json, part: string, child: Json, rest: seq<string>)
    requires Step(level, part) == Ok(Some(child)) && IsContainer(child)
    ensures Walk(level, [part] + rest) == Walk(child, rest)
  {
    assert ([part] + rest)[0] == part && ([part] + rest)[1..] == rest;
  }

  lemma DescendArray(items: seq<Json>, n: nat, rest: seq<string>)
    requires n < |items| && n <= MaxInt64
    ensures Walk(JArray(items), [FormatUint(n)] + rest)
      == if IsContainer(items[n]) then Walk(items[n], rest) else if |rest| == 0 then Ok(Found(items[n])) else Ok(None)
  {
    ParseIndex(n);
    var parts := [FormatUint(n)] + rest;
    assert parts[0] == FormatUint(n) && parts[1..] == rest;
    assert Step(JArray(items), FormatUint(n)) == Ok(Found(items[n]));
  }

  /**
   * A `null` element keeps the positions of the elements after it: in {"a": [null, {"b": "x"}]}
   * the path "/a/1/b" leads to "x", and "/a/0" to nothing.
   */
  lemma NullElementKeepsIndices()
    ensures JsonValue(map["a" := JArray([JNull, JObject(map["b" := JString("x")])])], "/a/1/b") == Ok(Some(JString("x")))
    ensures JsonValue(map["a" := JArray([JNull, JObject(map["b" := JString("x")])])], "/a/0") == Ok(None)
  {
    NullElementLaterIndex();
    NullElementItself();
  }

  /** The element after a null one is still found at its own index. */
  lemma NullElementLaterIndex()
    ensures JsonValue(map["a" := JArray([JNull, JObject(map["b" := JString("x")])])], "/a/1/b") == Ok(Some(JString("x")))
  {
    var inner := JObject(map["b" := JString("x")]);
    var t := map["a" := JArray([JNull, inner])];
    assert FormatUint(1) == "1";
    assert "/a/1/b" == "" + ['/'] + ("a" + ['/'] + ("1" + ['/'] + "b"));
    SplitAtSep("", '/', "a" + ['/'] + ("1" + ['/'] + "b"));
    SplitAtSep("a", '/', "1" + ['/'] + "b");
    SplitAtSep("1", '/', "b");
    SplitNoSep("b", '/');
    assert Split("/a/1/b", '/')[1..] == ["a", "1"] + ["b"];
    Descend(t, "a", [JNull, inner], 1, ["b"]);
    assert Walk(inner, ["b"]) == Ok(Some(JString("x")));
  }

  /** A null element reads as no value. */
  lemma NullElementItself()
    ensures JsonValue(map["a" := JArray([JNull, JObject(map["b" := JString("x")])])], "/a/0") == Ok(None)
  {
    var inner := JObject(map["b" := JString("x")]);
    var t := map["a" := JArray([JNull, inner])];
    assert FormatUint(0) == "0";
    assert "/a/0" == "" + ['/'] + ("a" + ['/'] + "0");
    SplitAtSep("", '/', "a" + ['/'] + "0");
    SplitAtSep("a", '/', "0");
    SplitNoSep("0", '/');
    assert Split("/a/0", '/')[1..] == ["a", "0"] + [];
    Descend(t, "a", [JNull, inner], 0, []);
  }

  /** A named patch template and its default variables. */
  datatype Patch = Patch(Name: string, Template: string, Variables: map<string, string>)

  /** The first patch with the name. */
  function FirstPatch(patches: seq<Patch>, name: string): (k: Option<nat>)
    ensures k.Some? ==> k.value < |patches| && patches[k.value].Name == name && forall j :: 0 <= j < k.value ==> patches[j].Name != name
    ensures k.None? ==> forall j :: 0 <= j < |patches| ==> patches[j].Name != name
  {
    if |patches| == 0 then None
    else if patches[0].Name == name then Some(0)
    else
      var k := FirstPatch(patches[1..], name);
      if k.Some? then Some(k.value + 1) else None
  }

  /** `findPatch`: the first patch with the name, or none. */
  method FindPatch(patches: seq<Patch>, name: string) returns (patch: Option<Patch>)
    ensures FirstPatch(patches, name).None? ==> patch.None?
    ensures FirstPatch(patches, name).Some? ==> patch == Some(patches[FirstPatch(patches, name).value])
  {
    patch := None;
    var i := 0;
    while i < |patches|
      invariant 0 <= i <= |patches|
      invariant forall j :: 0 <= j < i ==> patches[j].Name != name
    {
      if patches[i].Name == name {
        patch := Some(patches[i]);
        break;
      }
      i := i + 1;
    }
  }

  /** The variables a patch is rendered with: its defaults, each overridden by the caller's value. */
  method MergeVariables(defaults: map<string, string>, variables: map<string, string>) returns (merged: map<string, string>)
    ensures merged.Keys == defaults.Keys + variables.Keys
    ensures forall k :: k in variables ==> merged[k] == variables[k]
    ensures forall k :: k in defaults && k !in variables ==> merged[k] == defaults[k]
  {
    merged := map[];
    var left := defaults.Keys;
    while left != {}
      invariant left <= defaults.Keys
      invariant merged.Keys == defaults.Keys - left
      invariant forall k :: k in merged ==> merged[k] == defaults[k]
      decreases left
    {
      var k :| k in left;
      merged := merged[k := defaults[k]];
      left := left - {k};
    }
    left := variables.Keys;
    while left != {}
      invariant left <= variables.Keys
      invariant merged.Keys == defaults.Keys + (variables.Keys - left)
      invariant forall k :: k in variables && k !in left ==> merged[k] == variables[k]
      invariant forall k :: k in defaults && k !in variables ==> merged[k] == defaults[k]
      invariant forall k :: k in defaults && k in left ==> merged[k] == defaults[k]
      decreases left
    {
      var k :| k in left;
      merged := merged[k := variables[k]];
      left := left - {k};
    }
  }

  /** What a patch template is rendered with. */
  datatype Context = Context(NewVersion: string, Data: map<string, Json>, Vars: map<string, string>)

  /**
   * `patchEngine.Run`. The inputs stand for the library work: `templatesParse` is the outcome of
   * parsing all templates, `decode` the JSON decoder, `render` the template execution and `apply`
   * decoding and applying the rendered JSON patch to the resource.
   */
  method Run(
    patches: seq<Patch>, name: string, resource: seq<char>, newVersion: string, variables: map<string, string>,
    templatesParse: Option<string>, decode: seq<char> -> Result<map<string, Json>>,
    render: (string, Context) -> Result<string>, apply: (string, seq<char>) -> Result<seq<char>>)
    returns (r: Result<seq<char>>)
    ensures templatesParse.Some? ==> r == Err(templatesParse.value)
    ensures templatesParse.None? && FirstPatch(patches, name).None? ==> r == Err("unable to find patch " + name)
    ensures templatesParse.None? && FirstPatch(patches, name).Some? && decode(resource).Err? ==> r == Err(decode(resource).error)
    ensures templatesParse.None? && FirstPatch(patches, name).Some? && decode(resource).Ok? ==>
      exists vars :: RenderedWith(vars, patches[FirstPatch(patches, name).value].Variables, variables)
        && var rendered := render(name, Context(newVersion, decode(resource).value, vars));
        r == (if rendered.Err? then Err(rendered.error) else apply(rendered.value, resource))
  {
    if templatesParse.Some? {
      return Err(templatesParse.value);
    }
    var patch := FindPatch(patches, name);
    if patch.None? {
      return Err("unable to find patch " + name);
    }
    var patchVariables := MergeVariables(patch.value.Variables, variables);
    var resourceData := decode(resource);
    if resourceData.Err? {
      return Err(resourceData.error);
    }
    var c := Context(newVersion, resourceData.value, patchVariables);
    assert RenderedWith(patchVariables, patch.value.Variables, variables);
    var rawPatch := render(name, c);
    if rawPatch.Err? {
      return Err(rawPatch.error);
    }
    r := apply(rawPatch.value, resource);
  }

  /** The variables a patch is rendered with: every default key present, the caller's values winning. */
  predicate RenderedWith(vars: map<string, string>, defaults: map<string, string>, variables: map<string, string>)
  {
    vars.Keys == defaults.Keys + variables.Keys
    && (forall k :: k in variables ==> vars[k] == variables[k])
    && (forall k :: k in defaults && k !in variables ==> vars[k] == defaults[k])
  }

  /** The merged variables are exactly the defaults overridden by the caller's: no other map qualifies. */
  lemma RenderedWithUnique(a: map<string, string>, b: map<string, string>, defaults: map<string, string>, variables: map<string, string>)
    requires RenderedWith(a, defaults, variables) && RenderedWith(b, defaults, variables)
    ensures a == b
  {
    assert forall k :: k in a ==> a[k] == b[k];
  }

  /** One line of a `.var` file: "name=value" with blanks trimmed; a line without exactly one '=' names a variable with an empty value. */
  function LineVar(line: string): (v: Option<(string, string)>)
    ensures line == "" <==> v.None?
  {
    if line == "" then None
    else
      var vars := Split(line, '=');
      Some((TrimBlank(vars[0]), if |vars| == 2 then TrimBlank(vars[1]) else ""))
  }

  type Entry = Option<(string, string)>

  /** What each line of a `.var` file defines. */
  function Entries(lines: seq<string>): (e: seq<Entry>)
    ensures |e| == |lines| && forall i :: 0 <= i < |lines| ==> e[i] == LineVar(lines[i])
  {
    if |lines| == 0 then [] else [LineVar(lines[0])] + Entries(lines[1..])
  }

  /** The defaults the entries define, later ones overriding earlier ones. */
  function Defaults(entries: seq<Entry>): map<string, string>
  {
    if |entries| == 0 then map[]
    else
      var m := Defaults(entries[..|entries| - 1]);
      var v := entries[|entries| - 1];
      if v.None? then m else m[v.value.0 := v.value.1]
  }

  predicate Names(e: Entry, k: string)
  {
    e.Some? && e.value.0 == k
  }

  /** The last entry naming the variable. */
  function LastNaming(entries: seq<Entry>, k: string): (i: Option<nat>)
    ensures i.Some? ==> i.value < |entries| && Names(entries[i.value], k) && forall j :: i.value < j < |entries| ==> !Names(entries[j], k)
    ensures i.None? ==> forall j :: 0 <= j < |entries| ==> !Names(entries[j], k)
  {
    if |entries| == 0 then None
    else if Names(entries[|entries| - 1], k) then Some(|entries| - 1)
    else LastNaming(entries[..|entries| - 1], k)
  }

  /** A variable is a default exactly when a line names it, and it takes the value of the last such line. */
  lemma {:induction false} DefaultsLastWins(entries: seq<Entry>, k: string)
    ensures k in Defaults(entries) <==> LastNaming(entries, k).Some?
    ensures k in Defaults(entries) ==> Defaults(entries)[k] == entries[LastNaming(entries, k).value].value.1
  {
    if |entries| > 0 {
      var init := entries[..|entries| - 1];
      DefaultsLastWins(init, k);
      if !Names(entries[|entries| - 1], k) && LastNaming(init, k).Some? {
        assert entries[LastNaming(init, k).value] == init[LastNaming(init, k).value];
      }
    }
  }

  /** A "name=value" line of untrimmed-blank-free parts defines exactly that pair. */
  lemma LineVarPair(name: string, value: string)
    requires '=' !in name && '=' !in value && |name| > 0
    requires TrimBlank(name) == name && TrimBlank(value) == value
    ensures LineVar(name + "=" + value) == Some((name, value))
  {
    assert name + "=" + value == name + ['='] + value;
    SplitAtSep(name, '=', value);
    SplitNoSep(value, '=');
  }

  lemma DefaultsStep(entries: seq<Entry>, i: nat)
    requires i < |entries|
    ensures Defaults(entries[..i + 1]) == if entries[i].None? then Defaults(entries[..i])
      else Defaults(entries[..i])[entries[i].value.0 := entries[i].value.1]
  {
    assert entries[..i + 1][..i] == entries[..i];
  }

  /** Parses the lines of a `.var` file into the patch defaults. */
  method ParseVars(raw: string) returns (tplVars: map<string, string>)
    ensures tplVars == Defaults(Entries(Split(raw, '\n')))
  {
    var lines := Split(raw, '\n');
    ghost var entries := Entries(lines);
    tplVars := map[];
    var i := 0;
    while i < |lines|
      invariant 0 <= i <= |lines|
      invariant tplVars == Defaults(entries[..i])
    {
      DefaultsStep(entries, i);
      var line := lines[i];
      assert entries[i] == LineVar(line);
      if line != "" {
        var vars := Split(line, '=');
        var varName := TrimBlank(vars[0]);
        var value := "";
        if |vars| == 2 {
          value := TrimBlank(vars[1]);
        }
        assert entries[i] == Some((varName, value));
        tplVars := tplVars[varName := value];
      }
      i := i + 1;
    }
    assert entries[..i] == entries;
  }

  /** The patch a file yields: only ".tpl" files count, named with every ".tpl" taken out. */
  function PatchName(file: string): (name: Option<string>)
    ensures name.Some? <==> HasSuffix(file, ".tpl")
  {
    if HasSuffix(file, ".tpl") then Some(ReplaceAll(file, ".tpl", "")) else None
  }

  /** A plain "name.tpl" is the patch "name" when the name has no '.'. */
  lemma PatchNameStripsSuffix(name: string)
    requires '.' !in name
    ensures PatchName(name + ".tpl") == Some(name)
  {
    assert (name + ".tpl")[|name + ".tpl"| - 4..] == ".tpl";
    ReplaceAllStripsSuffix(name, ".tpl");
  }

  lemma {:induction false} ReplaceAllStripsSuffix(s: string, pat: string)
    requires |pat| > 0 && pat[0] !in s
    ensures ReplaceAll(s + pat, pat, "") == s
    decreases |s|
  {
    if |s| == 0 {
      assert s + pat == pat && pat[|pat|..] == "";
    } else {
      assert (s + pat)[0] == s[0] != pat[0];
      assert (s + pat)[1..] == s[1..] + pat;
      ReplaceAllStripsSuffix(s[1..], pat);
      assert [s[0]] + s[1..] == s;
    }
  }

  /** `failIfVariableDoesNotExist`: a missing variable map, or an empty value, is an error. */
  function FailIfVariableDoesNotExist(vars: Option<map<string, string>>, name: string): (r: Option<string>)
    ensures r.Some? <==> vars.None? || name !in vars.value || vars.value[name] == ""
    ensures r.Some? ==> r.value == "expected " + name + " variable to be set"
  {
    if vars.None? || Lookup(vars.value, name) == "" then Some("expected " + name + " variable to be set") else None
  }
}
