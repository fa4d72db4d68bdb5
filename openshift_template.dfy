/**
 * OpenShift template processing of `pkg/openshift/parser/template.go` (and its twin
 * `pkg/openshift/dynclient/template.go`): the parameters a template declares fill in the variables
 * the caller did not give, every `${NAME}` becomes the text/template action `{{ .NAME }}`, and the
 * environment can serve as the variables. Loading the asset, YAML decoding and template execution
 * are inputs of the model.
 */
module OpenShiftTemplate {
  import opened Wrappers
  import opened GoStrings

  /** A declared template parameter. */
  datatype Parameter = Parameter(Name: string, Value: string, Required: bool)

  function MissingError(name: string, templatePath: string): string
  {
    "expected " + name + " to be defined but can't be found in " + templatePath + " template nor as environment variable"
  }

  /** No earlier parameter has the same name. */
  predicate FirstDeclared(params: seq<Parameter>, i: nat)
    requires i < |params|
  {
    forall j :: 0 <= j < i ==> params[j].Name != params[i].Name
  }

  /** The parameter must be given: it is required, has no value of its own, and the caller left it out. */
  predicate Unmet(params: seq<Parameter>, i: nat, variables: map<string, string>)
    requires i < |params|
  {
    params[i].Name !in variables && FirstDeclared(params, i) && params[i].Value == "" && params[i].Required
  }

  /** The parameters from position i on, in order, applied to the variables: a name already present is left alone. */
  function FillFrom(params: seq<Parameter>, i: nat, vars: map<string, string>): (r: Result<map<string, string>>)
    requires i <= |params|
    ensures r.Ok? ==> forall k :: k in vars ==> k in r.value && r.value[k] == vars[k]
    ensures r.Ok? ==> forall k :: k in r.value && k !in vars ==> exists j :: i <= j < |params| && params[j].Name == k
    ensures r.Err? ==> exists j :: i <= j < |params| && params[j].Name == r.error && params[j].Name !in vars && params[j].Value == "" && params[j].Required
    decreases |params| - i
  {
    if i == |params| then Ok(vars)
    else
      var v := params[i];
      if v.Name in vars then FillFrom(params, i + 1, vars)
      else if v.Value == "" && v.Required then Err(v.Name)
      else FillFrom(params, i + 1, vars[v.Name := v.Value])
  }

  function Fill(params: seq<Parameter>, variables: map<string, string>): Result<map<string, string>>
  {
    FillFrom(params, 0, variables)
  }

  /** The first parameter declaring the name. */
  function FirstNamed(params: seq<Parameter>, name: string): (k: Option<nat>)
    ensures k.Some? ==> k.value < |params| && params[k.value].Name == name && FirstDeclared(params, k.value)
    ensures k.None? ==> forall j :: 0 <= j < |params| ==> params[j].Name != name
  {
    if |params| == 0 then None
    else if params[0].Name == name then Some(0)
    else
      var k := FirstNamed(params[1..], name);
      if k.Some? then Some(k.value + 1) else None
  }

  /** The name is declared before position i. */
  predicate DeclaredBefore(params: seq<Parameter>, i: nat, k: string)
  {
    FirstNamed(params, k).Some? && FirstNamed(params, k).value < i
  }

  /**
   * The variables after the first i parameters: the caller's, untouched, plus each name declared so
   * far with the value of its first declaration; and no parameter so far was unmet.
   */
  ghost predicate Filled(params: seq<Parameter>, variables: map<string, string>, i: nat, vars: map<string, string>)
  {
    i <= |params|
    && (forall k :: k in vars <==> k in variables || DeclaredBefore(params, i, k))
    && (forall k :: k in variables ==> vars[k] == variables[k])
    && (forall k :: k in vars && k !in variables ==> DeclaredBefore(params, i, k) && vars[k] == params[FirstNamed(params, k).value].Value)
    && (forall j :: 0 <= j < i ==> !Unmet(params, j, variables))
  }

  /** The parameter at position i is declared first there or earlier. */
  lemma DeclaredStep(params: seq<Parameter>, i: nat, k: string)
    requires i < |params|
    ensures k != params[i].Name ==> (DeclaredBefore(params, i + 1, k) <==> DeclaredBefore(params, i, k))
    ensures k == params[i].Name ==> DeclaredBefore(params, i + 1, k)
    ensures k == params[i].Name && !DeclaredBefore(params, i, k) ==> FirstNamed(params, k) == Some(i)
  {
    var f := FirstNamed(params, k);
    if k == params[i].Name {
      assert f.Some?;
    }
  }

  /** A parameter whose name is already set leaves the variables alone and is not unmet. */
  lemma FilledKept(params: seq<Parameter>, variables: map<string, string>, i: nat, vars: map<string, string>)
    requires Filled(params, variables, i, vars) && i < |params| && params[i].Name in vars
    ensures Filled(params, variables, i + 1, vars)
  {
    var name := params[i].Name;
    forall k | true
      ensures (k in vars <==> k in variables || DeclaredBefore(params, i + 1, k))
      ensures k in vars && k !in variables ==> DeclaredBefore(params, i + 1, k)
    {
      DeclaredStep(params, i, k);
    }
    if name !in variables {
      var f := FirstNamed(params, name).value;
      assert f < i && params[f].Name == name;
      assert !FirstDeclared(params, i);
    }
  }

  /** A parameter with a value of its own, or not required, adds its first declaration's value. */
  lemma FilledAdded(params: seq<Parameter>, variables: map<string, string>, i: nat, vars: map<string, string>)
    requires Filled(params, variables, i, vars) && i < |params| && params[i].Name !in vars
    requires !(params[i].Value == "" && params[i].Required)
    ensures Filled(params, variables, i + 1, vars[params[i].Name := params[i].Value])
  {
    var v := params[i];
    var next := vars[v.Name := v.Value];
    assert v.Name !in variables && !DeclaredBefore(params, i, v.Name);
    DeclaredStep(params, i, v.Name);
    forall k | true
      ensures (k in next <==> k in variables || DeclaredBefore(params, i + 1, k))
      ensures k in variables ==> next[k] == variables[k]
      ensures k in next && k !in variables ==> DeclaredBefore(params, i + 1, k) && next[k] == params[FirstNamed(params, k).value].Value
    {
      DeclaredStep(params, i, k);
      if k != v.Name {
        assert k in next <==> k in vars;
      }
    }
    assert !Unmet(params, i, variables);
  }

  /** A required parameter without a value whose name is not set yet is unmet. */
  lemma FilledUnmet(params: seq<Parameter>, variables: map<string, string>, i: nat, vars: map<string, string>)
    requires Filled(params, variables, i, vars) && i < |params| && params[i].Name !in vars
    requires params[i].Value == "" && params[i].Required
    ensures Unmet(params, i, variables)
  {
    DeclaredStep(params, i, params[i].Name);
  }

  /** From position i on, a fill that succeeds describes the whole list. */
  lemma {:induction false} FillFromOk(params: seq<Parameter>, variables: map<string, string>, i: nat, vars: map<string, string>)
    requires Filled(params, variables, i, vars)
    ensures FillFrom(params, i, vars).Ok? ==> Filled(params, variables, |params|, FillFrom(params, i, vars).value)
    decreases |params| - i
  {
    if i < |params| {
      var v := params[i];
      if v.Name in vars {
        FilledKept(params, variables, i, vars);
        FillFromOk(params, variables, i + 1, vars);
      } else if !(v.Value == "" && v.Required) {
        FilledAdded(params, variables, i, vars);
        FillFromOk(params, variables, i + 1, vars[v.Name := v.Value]);
      }
    }
  }

  /** The first parameter from position i on that is unmet. */
  predicate FirstUnmet(params: seq<Parameter>, variables: map<string, string>, j: nat)
  {
    j < |params| && Unmet(params, j, variables) && forall l :: 0 <= l < j ==> !Unmet(params, l, variables)
  }

  /** From position i on, a fill that fails names the first unmet parameter. */
  lemma {:induction false} FillFromErr(params: seq<Parameter>, variables: map<string, string>, i: nat, vars: map<string, string>)
    requires Filled(params, variables, i, vars)
    ensures FillFrom(params, i, vars).Err? ==> exists j :: i <= j && FirstUnmet(params, variables, j) && FillFrom(params, i, vars).error == params[j].Name
    decreases |params| - i
  {
    if i < |params| {
      var v := params[i];
      if v.Name in vars {
        FilledKept(params, variables, i, vars);
        FillFromErr(params, variables, i + 1, vars);
      } else if !(v.Value == "" && v.Required) {
        FilledAdded(params, variables, i, vars);
        FillFromErr(params, variables, i + 1, vars[v.Name := v.Value]);
      } else {
        FilledUnmet(params, variables, i, vars);
        assert FirstUnmet(params, variables, i);
      }
    }
  }

  /**
   * Filling fails exactly on an unmet parameter, naming the first one. Otherwise every caller
   * variable keeps its value and every other declared name takes the value of its first declaration.
   */
  lemma FillSpec(params: seq<Parameter>, variables: map<string, string>)
    ensures Fill(params, variables).Err? <==> exists i :: 0 <= i < |params| && Unmet(params, i, variables)
    ensures Fill(params, variables).Err? ==> exists i ::
      0 <= i < |params| && Unmet(params, i, variables) && Fill(params, variables).error == params[i].Name && forall j :: 0 <= j < i ==> !Unmet(params, j, variables)
    ensures Fill(params, variables).Ok? ==> var r := Fill(params, variables).value;
      (forall k :: k in r <==> k in variables || FirstNamed(params, k).Some?)
      && (forall k :: k in variables ==> r[k] == variables[k])
      && (forall k :: k in r && k !in variables ==> FirstNamed(params, k).Some? && r[k] == params[FirstNamed(params, k).value].Value)
  {
    FillFromOk(params, variables, 0, variables);
    FillFromErr(params, variables, 0, variables);
  }

  /** The loop that fills in the declared parameters. */
  method FillParameters(params: seq<Parameter>, variables: map<string, string>, templatePath: string) returns (r: Result<map<string, string>>)
    ensures Fill(params, variables).Ok? ==> r == Fill(params, variables)
    ensures Fill(params, variables).Err? ==> r == Err(MissingError(Fill(params, variables).error, templatePath))
  {
    var vars := variables;
    var i := 0;
    while i < |params|
      invariant 0 <= i <= |params|
      invariant Fill(params, variables) == FillFrom(params, i, vars)
    {
      var v := params[i];
      if v.Name !in vars {
        if v.Value == "" && v.Required {
          return Err(MissingError(v.Name, templatePath));
        }
        vars := vars[v.Name := v.Value];
      }
      i := i + 1;
    }
    return Ok(vars);
  }

  /** The placeholder "${...}" at the start of s, closed by the first '}' with no line break before it. */
  function Placeholder(s: string): (name: Option<string>)
    ensures name.Some? ==> '}' !in name.value && '\n' !in name.value && |name.value| + 3 <= |s| && s[..|name.value| + 3] == "${" + name.value + "}"
  {
    if |s| >= 2 && s[0] == '$' && s[1] == '{' && '}' in s[2..] then
      var j := IndexOf(s[2..], '}');
      var name := s[2..][..j];
      if '\n' in name then None
      else
        assert s[..j + 3] == "${" + name + "}";
        Some(name)
    else None
  }

  /**
   * Every leftmost, shortest `${NAME}` becomes `{{ .NAME }}`; as `.` does not cross a line break,
   * a placeholder broken over lines stays as it is.
   */
  function Rewrite(s: string): string
    decreases |s|
  {
    if |s| == 0 then ""
    else
      var p := Placeholder(s);
      if p.Some? then "{{ ." + p.value + " }}" + Rewrite(s[|p.value| + 3..])
      else [s[0]] + Rewrite(s[1..])
  }

  /** Text without a '$' is left alone. */
  lemma {:induction false} RewriteLiteral(s: string)
    requires '$' !in s
    ensures Rewrite(s) == s
  {
    if |s| > 0 {
      RewriteLiteral(s[1..]);
      assert [s[0]] + s[1..] == s;
    }
  }

  /** A placeholder is rewritten by its name and the rest independently. */
  lemma RewritePlaceholder(name: string, rest: string)
    requires '}' !in name && '\n' !in name
    ensures Rewrite("${" + name + "}" + rest) == "{{ ." + name + " }}" + Rewrite(rest)
  {
    var s := "${" + name + "}" + rest;
    assert s[2..] == name + "}" + rest;
    assert (name + "}" + rest)[|name|] == '}';
    var j := IndexOf(s[2..], '}');
    assert forall k :: 0 <= k < |name| ==> s[2..][k] == name[k];
    assert s[2..][..j][..] == s[2..][..j];
    assert j <= |name| by {
      assert forall k :: 0 <= k < j ==> s[2..][..j][k] == s[2..][k];
    }
    assert s[2..][..j] == name;
    assert s[|name| + 3..] == rest;
  }

  /** "${a}b}" keeps the second brace: the match is the shortest one. */
  lemma RewriteShortest()
    ensures Rewrite("${a}b}") == "{{ .a }}b}"
  {
    RewritePlaceholder("a", "b}");
    RewriteLiteral("b}");
  }

  /** A placeholder broken by a line break is not rewritten. */
  lemma RewriteKeepsBrokenPlaceholder()
    ensures Rewrite("${a\nb}") == "${a\nb}"
  {
    var s := "${a\nb}";
    assert s[2..] == "a\nb}";
    assert IndexOf(s[2..], '}') == 3;
    assert s[2..][..3] == "a\nb";
    assert Placeholder(s).None?;
    assert s[1..] == "{a\nb}";
    RewriteLiteral(s[1..]);
  }

  /**
   * `ProcessTemplate`. The inputs are the loaded template text (or its load error), the declared
   * parameters (or the YAML error) and template execution over the rewritten text.
   */
  method ProcessTemplate(templatePath: string, variables: map<string, string>, data: Result<string>,
    parameters: Result<seq<Parameter>>, execute: (string, map<string, string>) -> Result<string>)
    returns (r: Result<string>)
    ensures data.Err? ==> r == Err(data.error)
    ensures data.Ok? && parameters.Err? ==> r == Err(parameters.error)
    ensures data.Ok? && parameters.Ok? && Fill(parameters.value, variables).Err? ==>
      r == Err(MissingError(Fill(parameters.value, variables).error, templatePath))
    ensures data.Ok? && parameters.Ok? && Fill(parameters.value, variables).Ok? ==>
      r == execute(Rewrite(data.value), Fill(parameters.value, variables).value)
  {
    if data.Err? {
      return Err(data.error);
    }
    if parameters.Err? {
      return Err(parameters.error);
    }
    var vars := FillParameters(parameters.value, variables, templatePath);
    if vars.Err? {
      return Err(vars.error);
    }
    var tp := Rewrite(data.value);
    r := execute(tp, vars.value);
  }

  /** One environment entry as the code splits it: the key before the first '=', the value up to the second one. */
  function EnvEntryAsWritten(v: string): (e: Result<(string, string)>)
    ensures e.Err? <==> '=' !in v
  {
    var envVar := Split(v, '=');
    if |envVar| < 2 then
      assert Count(v, '=') == 0;
      CountNoneIff(v, '=');
      Err(IndexOutOfRange)
    else
      CountNoneIff(v, '=');
      Ok((envVar[0], envVar[1]))
  }

  const IndexOutOfRange := "index out of range"

  lemma CountNoneIff(s: string, c: char)
    ensures Count(s, c) == 0 <==> c !in s
  {
    if c !in s {
      CountZero(s, c);
    } else {
      CountPositive(s, c);
    }
  }

  lemma {:induction false} CountPositive(s: string, c: char)
    requires c in s
    ensures Count(s, c) > 0
  {
    if s[0] != c {
      assert c in s[1..];
      CountPositive(s[1..], c);
      CountStep(s, c);
    } else {
      CountStep(s, c);
    }
  }

  lemma CountStep(s: string, c: char)
    requires |s| > 0
    ensures Count(s, c) == Count(s[1..], c) + (if s[0] == c then 1 else 0)
  {
    assert s == [s[0]] + s[1..];
    CountConcat([s[0]], s[1..], c);
  }

  /** An environment value holding a '=' loses everything from that '=' on. */
  lemma EnvEntryTruncates()
    ensures EnvEntryAsWritten("OPTS=a=b") == Ok(("OPTS", "a"))
  {
    var s := "OPTS=a=b";
    assert s == "OPTS" + ['='] + "a=b";
    SplitAtSep("OPTS", '=', "a=b");
    assert "a=b" == "a" + ['='] + "b";
    SplitAtSep("a", '=', "b");
    SplitNoSep("b", '=');
  }

  /** One environment entry split at its first '=' only. */
  function EnvEntry(v: string): (e: Result<(string, string)>)
    ensures e.Err? <==> '=' !in v
    ensures e.Ok? ==> '=' !in e.value.0 && e.value.0 + "=" + e.value.1 == v
  {
    var envVar := SplitN2(v, '=');
    if |envVar| < 2 then Err(IndexOutOfRange) else Ok((envVar[0], envVar[1]))
  }

  /** The entry "KEY=value" reads back as that key and that value, whatever the value holds. */
  lemma EnvEntryRoundTrip(key: string, value: string)
    requires '=' !in key
    ensures EnvEntry(key + "=" + value) == Ok((key, value))
  {
    var s := key + "=" + value;
    var e := EnvEntry(s);
    assert s[|key|] == '=';
    assert e.Ok?;
    var k := e.value.0;
    assert k + "=" + e.value.1 == key + "=" + value;
    assert forall t :: 0 <= t < |key| ==> s[t] == key[t];
    assert forall t :: 0 <= t < |k| ==> s[t] == k[t];
    assert (k + "=" + e.value.1)[|k|] == '=';
    assert s[..|k|] == k && s[..|key|] == key;
    assert s[|k| + 1..] == e.value.1;
  }

  /** The environment as variables, a later entry for a key overriding an earlier one. */
  function EnvOf(environ: seq<string>): Result<map<string, string>>
  {
    if |environ| == 0 then Ok(map[])
    else
      var m := EnvOf(environ[..|environ| - 1]);
      var e := EnvEntry(environ[|environ| - 1]);
      if m.Err? then m else if e.Err? then Err(e.error) else Ok(m.value[e.value.0 := e.value.1])
  }

  /** Every well-formed environment is read completely: each key holds the value of its last entry. */
  lemma {:induction false} EnvOfLastWins(environ: seq<string>, i: nat)
    requires forall j :: 0 <= j < |environ| ==> '=' in environ[j]
    requires i < |environ|
    requires forall j :: i < j < |environ| ==> EnvEntry(environ[j]).value.0 != EnvEntry(environ[i]).value.0
    ensures EnvOf(environ).Ok? && EnvEntry(environ[i]).value.0 in EnvOf(environ).value && EnvOf(environ).value[EnvEntry(environ[i]).value.0] == EnvEntry(environ[i]).value.1
  {
    var init := environ[..|environ| - 1];
    EnvOfOk(init);
    if i < |environ| - 1 {
      EnvOfLastWins(init, i);
    }
  }

  lemma {:induction false} EnvOfOk(environ: seq<string>)
    requires forall j :: 0 <= j < |environ| ==> '=' in environ[j]
    ensures EnvOf(environ).Ok?
  {
    if |environ| > 0 {
      EnvOfOk(environ[..|environ| - 1]);
    }
  }

  /** `ProcessTemplateUsingEnvVars`: the environment entries, read into a map, are the variables. */
  method EnvVariables(environ: seq<string>) returns (r: Result<map<string, string>>)
    ensures r == EnvOf(environ)
  {
    var envMap := map[];
    var i := 0;
    while i < |environ|
      invariant 0 <= i <= |environ|
      invariant EnvOf(environ[..i]) == Ok(envMap)
    {
      assert environ[..i + 1][..i] == environ[..i];
      var envVar := EnvEntry(environ[i]);
      if envVar.Err? {
        EnvOfErrSticks(environ, i + 1);
        return Err(envVar.error);
      }
      envMap := envMap[envVar.value.0 := envVar.value.1];
      i := i + 1;
    }
    assert environ[..i] == environ;
    return Ok(envMap);
  }

  /** A malformed entry fails the whole environment, whatever follows. */
  lemma {:induction false} EnvOfErrSticks(environ: seq<string>, n: nat)
    requires 0 < n <= |environ| && EnvOf(environ[..n]).Err?
    ensures EnvOf(environ) == Err(EnvOf(environ[..n]).error)
    decreases |environ| - n
  {
    if n < |environ| {
      assert environ[..n + 1][..n] == environ[..n];
      EnvOfErrSticks(environ, n + 1);
    } else {
      assert environ[..n] == environ;
    }
  }

  /** `ProcessTemplateUsingEnvVars`: the template processed with the environment as its variables. */
  method ProcessTemplateUsingEnvVars(templatePath: string, environ: seq<string>, data: Result<string>,
    parameters: Result<seq<Parameter>>, execute: (string, map<string, string>) -> Result<string>)
    returns (r: Result<string>)
    ensures EnvOf(environ).Err? ==> r == Err(EnvOf(environ).error)
    ensures EnvOf(environ).Ok? && data.Err? ==> r == Err(data.error)
    ensures EnvOf(environ).Ok? && data.Ok? && parameters.Err? ==> r == Err(parameters.error)
    ensures EnvOf(environ).Ok? && data.Ok? && parameters.Ok? ==> var filled := Fill(parameters.value, EnvOf(environ).value);
      r == if filled.Err? then Err(MissingError(filled.error, templatePath)) else execute(Rewrite(data.value), filled.value)
  {
    var envMap := EnvVariables(environ);
    if envMap.Err? {
      return Err(envMap.error);
    }
    r := ProcessTemplate(templatePath, envMap.value, data, parameters, execute);
  }
}
