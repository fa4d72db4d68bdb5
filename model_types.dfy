/**
 * The session model of `pkg/model`: status actions and their undo, refs and their digest,
 * kind/name expressions, host names, and the record a locator reports.
 */
module ModelTypes {
  import opened GoStrings
  import GoSort

  /** Which operation was done or attempted on a resource; any string can occur. */
  type StatusAction = string

  const ActionCreate: StatusAction := "create"
  const ActionDelete: StatusAction := "delete"
  const ActionModify: StatusAction := "modify"
  const ActionRevert: StatusAction := "revert"
  const ActionLocated: StatusAction := "located"
  const StrategyExisting := "existing"

  predicate IsKnownAction(a: StatusAction)
  {
    a == ActionCreate || a == ActionDelete || a == ActionModify || a == ActionRevert || a == ActionLocated
  }

  /**
   * The action that undoes `action`: create and delete undo each other, a revert undoes a modify
   * and anything unknown, a modify undoes a revert, and located stays located.
   */
  function Flip(action: StatusAction): (r: StatusAction)
    ensures IsKnownAction(r)
    ensures r == ActionDelete <==> action == ActionCreate
    ensures r == ActionCreate <==> action == ActionDelete
    ensures r == ActionModify <==> action == ActionRevert
    ensures r == ActionLocated <==> action == ActionLocated
    ensures r == ActionRevert <==> action == ActionModify || !IsKnownAction(action)
  {
    if action == ActionCreate then ActionDelete
    else if action == ActionDelete then ActionCreate
    else if action == ActionModify then ActionRevert
    else if action == ActionRevert then ActionModify
    else if action == ActionLocated then ActionLocated
    else ActionRevert
  }

  /** On the five known actions `Flip` is its own inverse. */
  lemma FlipInvolution(a: StatusAction)
    requires IsKnownAction(a)
    ensures IsKnownAction(Flip(a)) && Flip(Flip(a)) == a
  {
  }

  /** Any other action is undone by a revert, whose own undo is a modify. */
  lemma FlipFallback(a: StatusAction)
    requires !IsKnownAction(a)
    ensures Flip(a) == ActionRevert && Flip(Flip(a)) == ActionModify
  {
  }

  datatype RefKindName = RefKindName(Kind: string, Name: string)
  {
    /** `kind/name`, or just the name when there is no kind. */
    function String(): string
    {
      if Kind == "" then Name else Kind + "/" + Name
    }

    /** An empty kind supports every kind; otherwise kinds are compared letter by letter ignoring ASCII case. */
    function SupportsKind(kind: string): (b: bool)
      ensures Kind == "" ==> b
      ensures Kind != "" ==> (b <==> |kind| == |Kind| && forall i :: 0 <= i < |kind| ==> LowerChar(kind[i]) == LowerChar(Kind[i]))
    {
      assert Kind != "" && |kind| == |Kind| && (forall i :: 0 <= i < |kind| ==> LowerChar(kind[i]) == LowerChar(Kind[i]))
        ==> ToLower(kind) == ToLower(Kind);
      Kind == "" || EqualFold(Kind, kind)
    }
  }

  /** Parses `kind/name` (trimmed and lower-cased); anything without exactly one '/' is a bare name. */
  function ParseRefKindName(exp: string): (r: RefKindName)
    ensures var t := TrimSpace(ToLower(exp));
      if Count(t, '/') == 1 then r.Kind + "/" + r.Name == t && '/' !in r.Kind && '/' !in r.Name
      else r == RefKindName("", t)
  {
    var trimmed := TrimSpace(ToLower(exp));
    var parts := Split(trimmed, '/');
    if |parts| == 2 then
      JoinSplit(trimmed, '/');
      assert parts[1] in parts;
      RefKindName(parts[0], parts[1])
    else RefKindName("", trimmed)
  }

  lemma TrimSpaceNoop(s: string)
    requires |s| > 0 ==> !IsSpace(s[0]) && !IsSpace(s[|s| - 1])
    ensures TrimSpace(s) == s
  {
    assert TrimLeftSpace(s) == s;
  }

  /** A kind/name pair with a kind survives formatting and parsing when it is already in parsed form. */
  lemma ParseStringRoundTrip(k: RefKindName)
    requires k.Kind != "" && IsLowerAscii(k.Kind) && IsLowerAscii(k.Name)
    requires '/' !in k.Kind && '/' !in k.Name
    requires !IsSpace(k.Kind[0]) && (k.Name == "" || !IsSpace(k.Name[|k.Name| - 1]))
    ensures ParseRefKindName(k.String()) == k
  {
    var s := k.Kind + ['/'] + k.Name;
    assert k.String() == s;
    assert IsLowerAscii(s) by {
      forall i | 0 <= i < |s| ensures !('A' <= s[i] <= 'Z') {
        if i < |k.Kind| { assert s[i] == k.Kind[i]; }
        else if i > |k.Kind| { assert s[i] == k.Name[i - |k.Kind| - 1]; }
      }
    }
    ToLowerIdentity(s);
    assert s[0] == k.Kind[0];
    assert s[|s| - 1] == if k.Name == "" then '/' else k.Name[|k.Name| - 1];
    TrimSpaceNoop(s);
    SplitAtSep(k.Kind, '/', k.Name);
    SplitNoSep(k.Name, '/');
    assert Split(s, '/') == [k.Kind, k.Name];
  }

  /** The seemingly different pairs ("", "a/b") and ("a", "b") format to the same text. */
  lemma StringNotInjective()
    ensures RefKindName("", "a/b").String() == RefKindName("a", "b").String()
  {
  }

  lemma {:induction false} ContainsChar(s: string, sub: string, c: char)
    requires Contains(s, sub) && c in sub
    ensures c in s
    decreases |s|
  {
    if HasPrefix(s, sub) {
      var i :| 0 <= i < |sub| && sub[i] == c;
      assert s[i] == c;
    } else {
      ContainsChar(s[1..], sub, c);
    }
  }

  const ClusterDomain := ".svc.cluster.local"

  datatype HostName = HostName(Name: string, Namespace: string)
  {
    /** Equal to the short name or to the full service DNS name in its namespace. */
    predicate Match(name: string)
    {
      Name == name || Name + "." + Namespace + ClusterDomain == name
    }

    function String(): string
    {
      if Namespace != "" then Name + "." + Namespace + ClusterDomain else Name
    }
  }

  /** The host name of a service DNS name; a name outside the cluster domain is kept whole. */
  function NewHostName(host: string): (h: HostName)
    ensures !Contains(host, ClusterDomain) ==> h == HostName(host, "")
  {
    if Contains(host, ClusterDomain) then
      ContainsChar(host, ClusterDomain, '.');
      CountZero(host, '.');
      var parts := Split(host, '.');
      HostName(parts[0], parts[1])
    else HostName(host, "")
  }

  lemma SplitFullName(name: string, ns: string)
    requires '.' !in name && '.' !in ns
    ensures var parts := Split(name + "." + ns + ClusterDomain, '.');
      |parts| >= 2 && parts[0] == name && parts[1] == ns
  {
    var tail := ClusterDomain[1..];
    assert ClusterDomain == ['.'] + tail;
    var rest := ns + ['.'] + tail;
    assert name + "." + ns + ClusterDomain == name + ['.'] + rest;
    SplitAtSep(name, '.', rest);
    SplitAtSep(ns, '.', tail);
  }

  /** Parsing the text of a host name gives it back when neither part contains a dot. */
  lemma NewHostNameRoundTrip(h: HostName)
    requires '.' !in h.Name && '.' !in h.Namespace
    ensures NewHostName(h.String()) == h
  {
    if h.Namespace == "" {
      if Contains(h.Name, ClusterDomain) {
        ContainsChar(h.Name, ClusterDomain, '.');
      }
    } else {
      var s := h.Name + "." + h.Namespace + ClusterDomain;
      assert s == h.Name + "." + h.Namespace + ClusterDomain + "";
      ContainsConcat(h.Name + "." + h.Namespace, ClusterDomain, "");
      SplitFullName(h.Name, h.Namespace);
    }
  }

  /** Every host name matches its own text, and a dot-free host name matches no full name of another namespace. */
  lemma MatchOwnNamespaceOnly(h: HostName, ns: string)
    requires '.' !in h.Name && ns != "" && ns != h.Namespace
    ensures h.Match(h.String())
    ensures !h.Match(HostName(h.Name, ns).String())
  {
    var other := h.Name + "." + ns + ClusterDomain;
    assert other != h.Name by {
      assert other[|h.Name|] == '.';
    }
    if h.Name + "." + h.Namespace + ClusterDomain == other {
      MiddleUnique(h.Name + ".", h.Namespace, ns, ClusterDomain);
    }
  }

  lemma MiddleUnique(p: string, x: string, y: string, s: string)
    requires p + x + s == p + y + s
    ensures x == y
  {
    assert |x| == |y|;
    assert x == (p + x + s)[|p|..|p| + |x|];
    assert y == (p + y + s)[|p|..|p| + |y|];
  }

  lemma SuffixCancel(x: string, y: string, s: string)
    requires x + s == y + s
    ensures x == y
  {
    assert |x| == |y|;
    assert x == (x + s)[..|x|];
    assert y == (y + s)[..|y|];
  }

  /** A byte value. */
  type byte = b: int | 0 <= b < 256

  /** A SHA-256 sum, as `sha256.Sum256` returns it (the hash itself is a parameter of the model). */
  type Sum256 = s: seq<byte> | |s| == 32 witness seq(32, _ => 0)

  const HexDigits := "0123456789abcdef"

  /** `fmt.Sprintf("%x", bytes)`: two lower-case hex digits per byte. */
  function Hex(bs: seq<byte>): (r: string)
    ensures |r| == 2 * |bs|
    ensures forall i :: 0 <= i < |r| ==> r[i] in HexDigits
  {
    if |bs| == 0 then "" else [HexDigits[bs[0] / 16], HexDigits[bs[0] % 16]] + Hex(bs[1..])
  }

  /** The first eight hex digits of a sum: the short hash used for refs and versions. */
  function ShortSha(sum: Sum256): (r: string)
    ensures |r| == 8 && forall i :: 0 <= i < 8 ==> r[i] in HexDigits
  {
    Hex(sum)[..8]
  }

  datatype Resource = Resource(Namespace: string, Kind: string, Name: string)

  /** `time.Time`, counted from the zero time; 0 is the zero value `IsZero` tests for. */
  type Time = int

  datatype LocatorStatus = LocatorStatus(Resource: Resource, TimeStamp: Time, Labels: map<string, string>, Action: StatusAction)
  {
    function Namespace(): string { Resource.Namespace }
    function Kind(): string { Resource.Kind }
    function Name(): string { Resource.Name }
  }

  /** A store view: the reports of the given kinds (all reports when no kind is given). */
  type StoreView = seq<string> -> seq<LocatorStatus>

  datatype Route = Route(Type: string, Name: string, Value: string)

  datatype Ref = Ref(KindName: RefKindName, Deleted: bool, Namespace: string, Strategy: string, Args: map<string, string>)
  {
    /** The fixed part of the digest. */
    function Header(): string
    {
      "kind:" + KindName.String() + Settings()
    }

    /** The part of the fixed text after the kind/name. */
    function Settings(): string
    {
      ";deleted:" + FormatBool(Deleted) + ";namespace:" + Namespace + ";strategy:" + Strategy
    }

    /** The text hashed by `Hash`: the fixed part, then every argument in increasing key order. */
    ghost function Digest(): string
    {
      Header() + ArgsText(GoSort.SortedElements(Args.Keys), Args)
    }

    /**
     * The short hash of the digest. The keys of `Args` are visited in an arbitrary order, as a
     * Go map range visits them, and then sorted, so the result depends only on the map.
     */
    method Hash(sha256: string -> Sum256) returns (h: string)
      ensures h == ShortSha(sha256(Digest())) && |h| == 8
    {
      var digest := "kind:" + KindName.String();
      digest := digest + (";deleted:" + FormatBool(Deleted));
      digest := digest + (";namespace:" + Namespace);
      digest := digest + (";strategy:" + Strategy);
      SettingsText("kind:" + KindName.String(), ";deleted:", FormatBool(Deleted), ";namespace:", Namespace, ";strategy:", Strategy);

      var args := CollectKeys(Args);
      var sorted := GoSort.SortStrings(args);
      digest := AppendArgs(digest, sorted, Args);
      SortedKeys(args, sorted, Args.Keys);
      h := ShortSha(sha256(digest));
    }
  }

  /** The keys of a map, each once, in whatever order the range visits them. */
  method CollectKeys(m: map<string, string>) returns (args: seq<string>)
    ensures forall x :: x in args <==> x in m
    ensures forall x :: multiset(args)[x] <= 1
  {
    args := [];
    var rest := m.Keys;
    while rest != {}
      invariant forall x :: x in args <==> x in m && x !in rest
      invariant rest <= m.Keys
      invariant forall x :: multiset(args)[x] <= 1
      decreases rest
    {
      var k :| k in rest;
      args := args + [k];
      rest := rest - {k};
    }
  }

  /** Appends `;args[k]:v` for every key of `keys`, in order. */
  method AppendArgs(digest: string, keys: seq<string>, args: map<string, string>) returns (r: string)
    ensures r == digest + ArgsText(keys, args)
  {
    r := digest;
    var i := 0;
    while i < |keys|
      invariant 0 <= i <= |keys|
      invariant r == digest + ArgsText(keys[..i], args)
    {
      assert keys[..i + 1][..i] == keys[..i];
      r := r + (";args[" + keys[i] + "]:" + (if keys[i] in args then args[keys[i]] else ""));
      i := i + 1;
    }
    assert keys[..i] == keys;
  }

  /** Sorting the keys, collected in any order, gives the keys in increasing order. */
  lemma SortedKeys(args: seq<string>, sorted: seq<string>, keys: set<string>)
    requires forall x :: x in args <==> x in keys
    requires forall x :: multiset(args)[x] <= 1
    requires GoSort.Sorted(sorted) && multiset(sorted) == multiset(args)
    ensures sorted == GoSort.SortedElements(keys)
  {
    forall x ensures x in sorted <==> x in keys {
      assert x in sorted <==> x in multiset(sorted);
      assert x in args <==> x in multiset(args);
    }
    NoRepeats(sorted);
    GoSort.SortedDistinct(sorted);
    GoSort.StrictlySortedUnique(sorted, GoSort.SortedElements(keys));
  }

  /** `;args[k]:v` for every key in order; a key the map lacks reads as "" like a Go map. */
  function ArgsText(keys: seq<string>, args: map<string, string>): string
  {
    if |keys| == 0 then "" else ArgsText(keys[..|keys| - 1], args) + ArgText(keys[|keys| - 1], args)
  }

  function ArgText(k: string, args: map<string, string>): string
  {
    ";args[" + k + "]:" + (if k in args then args[k] else "")
  }

  lemma NoRepeats(s: seq<string>)
    requires forall x :: multiset(s)[x] <= 1
    ensures forall i, j :: 0 <= i < j < |s| ==> s[i] != s[j]
  {
    forall i, j | 0 <= i < j < |s| ensures s[i] != s[j] {
      assert s == s[..j] + s[j..];
      assert s[i] in multiset(s[..j]);
      assert s[j] in multiset(s[j..]);
      assert multiset(s)[s[j]] == multiset(s[..j])[s[j]] + multiset(s[j..])[s[j]];
    }
  }

  /** Flipping `Deleted` changes the digest. */
  lemma DigestSeesDeleted(r: Ref)
    ensures r.(Deleted := !r.Deleted).Digest() != r.Digest()
  {
    assert |FormatBool(true)| != |FormatBool(false)|;
    assert |r.(Deleted := !r.Deleted).Digest()| != |r.Digest()|;
  }

  /** Changing the namespace changes the digest. */
  lemma DigestSeesNamespace(r: Ref, ns: string)
    requires ns != r.Namespace
    ensures r.(Namespace := ns).Digest() != r.Digest()
  {
    var h, t := "kind:" + r.KindName.String(), ArgsText(GoSort.SortedElements(r.Args.Keys), r.Args);
    var p := ";deleted:" + FormatBool(r.Deleted) + ";namespace:";
    RegroupInner(h, p, r.Namespace, ";strategy:", r.Strategy, t);
    RegroupInner(h, p, ns, ";strategy:", r.Strategy, t);
    MiddleCancel(h + p, ns, r.Namespace, ";strategy:" + r.Strategy + t);
  }

  /** Changing the strategy changes the digest. */
  lemma DigestSeesStrategy(r: Ref, strategy: string)
    requires strategy != r.Strategy
    ensures r.(Strategy := strategy).Digest() != r.Digest()
  {
    var h, t := "kind:" + r.KindName.String(), ArgsText(GoSort.SortedElements(r.Args.Keys), r.Args);
    var p := ";deleted:" + FormatBool(r.Deleted) + ";namespace:" + r.Namespace + ";strategy:";
    RegroupLast(h, p, r.Strategy, t);
    RegroupLast(h, p, strategy, t);
    MiddleCancel(h + p, strategy, r.Strategy, t);
  }

  lemma RegroupInner(h: string, p: string, x: string, c: string, d: string, t: string)
    ensures h + (p + x + c + d) + t == h + p + x + (c + d + t)
  {
  }

  lemma RegroupLast(h: string, p: string, x: string, t: string)
    ensures h + (p + x) + t == h + p + x + t
  {
  }

  /** Changing the kind/name changes the digest exactly when it changes the kind/name text. */
  lemma DigestSeesKindName(r: Ref, k: RefKindName)
    ensures r.(KindName := k).Digest() == r.Digest() <==> k.String() == r.KindName.String()
  {
    var tail := r.Settings() + ArgsText(GoSort.SortedElements(r.Args.Keys), r.Args);
    Regroup("kind:", r.KindName.String(), r.Settings(), ArgsText(GoSort.SortedElements(r.Args.Keys), r.Args));
    Regroup("kind:", k.String(), r.Settings(), ArgsText(GoSort.SortedElements(r.Args.Keys), r.Args));
    MiddleCancel("kind:", k.String(), r.KindName.String(), tail);
  }

  lemma SettingsText(p: string, a: string, b: string, c: string, d: string, e: string, f: string)
    ensures p + (a + b) + (c + d) + (e + f) == p + (a + b + c + d + e + f)
  {
  }

  lemma Regroup(p: string, x: string, t: string, u: string)
    ensures p + x + t + u == p + x + (t + u)
  {
  }

  lemma MiddleCancel(p: string, x: string, y: string, s: string)
    ensures p + x + s == p + y + s <==> x == y
  {
    if p + x + s == p + y + s {
      MiddleUnique(p, x, y, s);
    }
  }

  lemma {:induction false} ArgsTextAgree(keys: seq<string>, m1: map<string, string>, m2: map<string, string>)
    requires forall k :: k in keys ==> (k in m1 <==> k in m2) && (k in m1 ==> m1[k] == m2[k])
    ensures ArgsText(keys, m1) == ArgsText(keys, m2)
  {
    if |keys| > 0 {
      ArgsTextAgree(keys[..|keys| - 1], m1, m2);
    }
  }

  lemma {:induction false} ArgsTextSeesValue(keys: seq<string>, m: map<string, string>, k: string, v: string)
    requires k in keys && k in m && v != m[k]
    requires forall i, j :: 0 <= i < j < |keys| ==> keys[i] != keys[j]
    ensures ArgsText(keys, m[k := v]) != ArgsText(keys, m)
  {
    var n := |keys|;
    var init := keys[..n - 1];
    var last := keys[n - 1];
    if last == k {
      assert k !in init;
      ArgsTextAgree(init, m[k := v], m);
      var p := ArgsText(init, m);
      if p + ArgText(k, m[k := v]) == p + ArgText(k, m) {
        PrefixCancel(p, ArgText(k, m[k := v]), ArgText(k, m));
        PrefixCancel(";args[" + k + "]:", v, m[k]);
      }
    } else {
      assert k in init;
      ArgsTextSeesValue(init, m, k, v);
      assert ArgText(last, m[k := v]) == ArgText(last, m);
      if ArgsText(init, m[k := v]) + ArgText(last, m) == ArgsText(init, m) + ArgText(last, m) {
        SuffixCancel(ArgsText(init, m[k := v]), ArgsText(init, m), ArgText(last, m));
      }
    }
  }

  lemma PrefixCancel(p: string, x: string, y: string)
    requires p + x == p + y
    ensures x == y
  {
    assert x == (p + x)[|p|..];
    assert y == (p + y)[|p|..];
  }

  /** Changing the value of any argument changes the digest. */
  lemma DigestSeesArgValue(r: Ref, k: string, v: string)
    requires k in r.Args && v != r.Args[k]
    ensures r.(Args := r.Args[k := v]).Digest() != r.Digest()
  {
    var r2 := r.(Args := r.Args[k := v]);
    assert r2.Args.Keys == r.Args.Keys;
    var keys := GoSort.SortedElements(r.Args.Keys);
    forall i, j | 0 <= i < j < |keys| ensures keys[i] != keys[j] {
      GoSort.LessIrreflexive(keys[i]);
    }
    ArgsTextSeesValue(keys, r.Args, k, v);
    var x, y := ArgsText(keys, r2.Args), ArgsText(keys, r.Args);
    if |x| == |y| {
      var i :| 0 <= i < |x| && x[i] != y[i];
      assert r2.Digest()[|r.Header()| + i] == x[i];
      assert r.Digest()[|r.Header()| + i] == y[i];
    } else {
      assert |r2.Digest()| != |r.Digest()|;
    }
  }

  /** The host names of the located services, one per service, in order. */
  method GetTargetHostNames(store: StoreView) returns (hosts: seq<HostName>)
    ensures var targets := store(["Service"]);
      |hosts| == |targets|
      && forall i :: 0 <= i < |hosts| ==> hosts[i] == HostName(targets[i].Name(), targets[i].Namespace())
  {
    var targets := store(["Service"]);
    hosts := [];
    var i := 0;
    while i < |targets|
      invariant 0 <= i <= |targets|
      invariant |hosts| == i
      invariant forall j :: 0 <= j < i ==> hosts[j] == HostName(targets[j].Name(), targets[j].Namespace())
    {
      hosts := hosts + [HostName(targets[i].Name(), targets[i].Namespace())];
      i := i + 1;
    }
  }
}
