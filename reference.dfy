/**
 * Reference bookkeeping of `pkg/reference`: the comma-separated list of owning sessions kept in
 * an annotation (`enqueue_annotations.go`), and the per-session labels (`marker.go`,
 * `labels.go`). A Kubernetes object is reduced to its two string maps.
 */
module Reference {
  import opened Wrappers
  import opened GoStrings
  import opened Seqs

  /** The metadata of a Kubernetes object that the bookkeeping reads and writes. */
  class KubeObject {
    var labels: map<string, string>
    var annotations: map<string, string>

    constructor (labels: map<string, string>, annotations: map<string, string>)
      ensures this.labels == labels && this.annotations == annotations
    {
      this.labels := labels;
      this.annotations := annotations;
    }
  }

  const NamespacedNameAnnotation := "maistra.io/istio-workspaces"

  datatype NamespacedName = NamespacedName(Namespace: string, Name: string)

  /** How an owner is written in the annotation: "namespace/name". */
  function ReferenceOf(owner: NamespacedName): string
  {
    owner.Namespace + "/" + owner.Name
  }

  /** The annotation after adding `reference`: set when empty, unchanged when listed, else appended. */
  function WithOwner(value: string, reference: string): string
  {
    if value == "" then reference
    else if reference in Split(value, ',') then value
    else value + "," + reference
  }

  /**
   * Adds `owner` to the object's owner list. An owner without namespace or name is refused and
   * the object is left alone.
   */
  method Add(owner: NamespacedName, obj: KubeObject) returns (err: Option<string>)
    modifies obj
    ensures owner.Namespace == "" ==> err.Some? && unchanged(obj)
    ensures owner.Namespace != "" && owner.Name == "" ==> err.Some? && unchanged(obj)
    ensures owner.Namespace != "" && owner.Name != "" ==>
      err.None? && obj.labels == old(obj.labels)
      && obj.annotations == old(obj.annotations)[NamespacedNameAnnotation :=
           WithOwner(Lookup(old(obj.annotations), NamespacedNameAnnotation), ReferenceOf(owner))]
  {
    if owner.Namespace == "" {
      return Some("types.NamespacedName does not have a namespace, cannot call Add");
    }
    if owner.Name == "" {
      return Some("types.NamespacedName does not have a name, cannot call Add");
    }
    var annotations := obj.annotations;
    var value := Lookup(annotations, NamespacedNameAnnotation);
    var references := Split(value, ',');
    var reference := owner.Namespace + "/" + owner.Name;
    JoinSplit(value, ',');
    SplitEmpty(value, ',');
    if |references| == 1 && references[0] == "" {
      references := [reference];
    } else {
      var listed := IsListed(references, reference);
      if listed {
        assert NamespacedNameAnnotation in annotations;
        assert annotations[NamespacedNameAnnotation := value] == annotations;
        return None;
      }
      JoinAppend(references, reference, ",");
      references := references + [reference];
    }
    obj.annotations := annotations[NamespacedNameAnnotation := Join(references, ",")];
    return None;
  }

  /** The search of `Add` for a reference already listed. */
  method IsListed(references: seq<string>, reference: string) returns (listed: bool)
    ensures listed <==> reference in references
  {
    var i := 0;
    while i < |references|
      invariant 0 <= i <= |references|
      invariant reference !in references[..i]
    {
      if references[i] == reference {
        return true;
      }
      assert references[..i + 1] == references[..i] + [references[i]];
      i := i + 1;
    }
    assert references[..i] == references;
    return false;
  }

  /**
   * Removes `owner` from the object's owner list; the annotation is written back even when it was
   * missing. An owner without namespace or name is refused and the object is left alone.
   */
  method Remove(owner: NamespacedName, obj: KubeObject) returns (err: Option<string>)
    modifies obj
    ensures owner.Namespace == "" ==> err.Some? && unchanged(obj)
    ensures owner.Namespace != "" && owner.Name == "" ==> err.Some? && unchanged(obj)
    ensures owner.Namespace != "" && owner.Name != "" ==>
      err.None? && obj.labels == old(obj.labels)
      && obj.annotations == old(obj.annotations)[NamespacedNameAnnotation :=
           Join(Without(Split(Lookup(old(obj.annotations), NamespacedNameAnnotation), ','), ReferenceOf(owner)), ",")]
  {
    if owner.Namespace == "" {
      return Some("types.NamespacedName does not have a namespace, cannot call Remove");
    }
    if owner.Name == "" {
      return Some("types.NamespacedName does not have a name, cannot call Remove");
    }
    var annotations := obj.annotations;
    var existing := Split(Lookup(annotations, NamespacedNameAnnotation), ',');
    var reference := owner.Namespace + "/" + owner.Name;
    var references: seq<string> := [];
    var i := 0;
    while i < |existing|
      invariant 0 <= i <= |existing|
      invariant references == Without(existing[..i], reference)
    {
      if existing[i] != reference {
        references := references + [existing[i]];
      }
      assert existing[..i + 1][..i] == existing[..i];
      i := i + 1;
    }
    assert existing[..i] == existing;
    obj.annotations := annotations[NamespacedNameAnnotation := Join(references, ",")];
    return None;
  }

  /** "namespace/name" split at the first '/'; without one the whole text is the name. */
  function ParseNamespacedName(s: string): (n: NamespacedName)
    ensures '/' !in s ==> n == NamespacedName("", s)
    ensures '/' in s ==> '/' !in n.Namespace && ReferenceOf(n) == s
  {
    var values := SplitN2(s, '/');
    if |values| == 1 then NamespacedName("", values[0]) else NamespacedName(values[0], values[1])
  }

  /** The owner written by `Add` is read back by `ParseNamespacedName`. */
  lemma ParseReference(owner: NamespacedName)
    requires '/' !in owner.Namespace
    ensures ParseNamespacedName(ReferenceOf(owner)) == owner
  {
    var s := ReferenceOf(owner);
    assert s[|owner.Namespace|] == '/';
    var n := ParseNamespacedName(s);
    SlashUnique(n.Namespace, n.Name, owner.Namespace, owner.Name);
  }

  lemma SlashUnique(a: string, b: string, c: string, d: string)
    requires '/' !in a && '/' !in c && a + "/" + b == c + "/" + d
    ensures a == c && b == d
  {
    var s := a + "/" + b;
    assert s[|a|] == '/' && s[|c|] == '/';
    assert a == s[..|a|] && c == s[..|c|];
    assert b == s[|a| + 1..] && d == s[|c| + 1..];
  }

  /** The non-empty entries, each parsed, in order. */
  function Owners(references: seq<string>): (r: seq<NamespacedName>)
    ensures |r| <= |references|
    ensures forall n :: n in r <==> exists s :: s in references && s != "" && ParseNamespacedName(s) == n
  {
    if |references| == 0 then []
    else
      var last := references[|references| - 1];
      var front := references[..|references| - 1];
      assert references == front + [last];
      Owners(front) + (if last != "" then [ParseNamespacedName(last)] else [])
  }

  /** The owners listed in the object's annotation. */
  function Get(annotations: map<string, string>): seq<NamespacedName>
  {
    Owners(Split(Lookup(annotations, NamespacedNameAnnotation), ','))
  }

  /** Adding an owner twice leaves the annotation as adding it once. */
  lemma AddIdempotent(value: string, reference: string)
    requires ',' !in reference
    ensures WithOwner(WithOwner(value, reference), reference) == WithOwner(value, reference)
  {
    OwnerListed(value, reference);
  }

  lemma OwnerListed(value: string, reference: string)
    requires ',' !in reference
    ensures reference in Split(WithOwner(value, reference), ',')
  {
    SplitNoSep(reference, ',');
    if value != "" && reference !in Split(value, ',') {
      SplitConcat(value, ',', reference);
    }
  }

  /** After `Add(owner)`, `Get` lists the owner, when no ',' is in its names and no '/' in its namespace. */
  lemma AddThenGet(annotations: map<string, string>, owner: NamespacedName)
    requires owner.Namespace != "" && owner.Name != ""
    requires ',' !in owner.Namespace && ',' !in owner.Name && '/' !in owner.Namespace
    ensures owner in Get(annotations[NamespacedNameAnnotation :=
      WithOwner(Lookup(annotations, NamespacedNameAnnotation), ReferenceOf(owner))])
  {
    var reference := ReferenceOf(owner);
    assert ',' !in reference by {
      assert forall i :: 0 <= i < |reference| ==> reference[i] != ',' by {
        forall i | 0 <= i < |reference| ensures reference[i] != ',' {
          if i < |owner.Namespace| {
            assert reference[i] == owner.Namespace[i];
          } else if i > |owner.Namespace| {
            assert reference[i] == owner.Name[i - |owner.Namespace| - 1];
          }
        }
      }
    }
    OwnerListed(Lookup(annotations, NamespacedNameAnnotation), reference);
    ParseReference(owner);
  }

  /** After `Remove(owner)`, `Get` no longer lists the owner. */
  lemma RemoveThenGet(annotations: map<string, string>, owner: NamespacedName)
    requires owner.Namespace != "" && owner.Name != ""
    ensures owner !in Get(annotations[NamespacedNameAnnotation :=
      Join(Without(Split(Lookup(annotations, NamespacedNameAnnotation), ','), ReferenceOf(owner)), ",")])
  {
    var kept := Without(Split(Lookup(annotations, NamespacedNameAnnotation), ','), ReferenceOf(owner));
    if |kept| == 0 {
      assert Join(kept, ",") == "";
    } else {
      SplitJoin(kept, ',');
    }
  }

  datatype Request = Request(NamespacedName: NamespacedName)

  /** Whether the object names any owner, and one reconcile request per named owner, in order. */
  method GetAnnotationRequests(annotations: map<string, string>) returns (ok: bool, requests: seq<Request>)
    ensures ok <==> |Get(annotations)| > 0
    ensures ok ==> |requests| == |Get(annotations)|
    ensures ok ==> forall i :: 0 <= i < |requests| ==> requests[i].NamespacedName == Get(annotations)[i]
    ensures !ok ==> requests == []
  {
    requests := [];
    var typeNames := Get(annotations);
    if |typeNames| == 0 {
      return false, requests;
    }
    var i := 0;
    while i < |typeNames|
      invariant 0 <= i <= |typeNames| && |requests| == i
      invariant forall k :: 0 <= k < i ==> requests[k].NamespacedName == typeNames[k]
    {
      requests := requests + [Request(typeNames[i])];
      i := i + 1;
    }
    return true, requests;
  }

  /** The label prefix of session markers and session labels. */
  const Prefix := "maistra.io."

  /** Marks the object for `key` with "value-hash"; no other label changes. */
  method AddRefMarker(obj: KubeObject, key: string, value: string, hash: string)
    modifies obj
    ensures obj.labels == old(obj.labels)[Prefix + key := value + "-" + hash]
    ensures obj.annotations == old(obj.annotations)
  {
    obj.labels := obj.labels[Prefix + key := value + "-" + hash];
  }

  /**
   * The marker for `key` split at '-': both halves when it splits into exactly two, otherwise the
   * first piece and an empty hash.
   */
  function GetRefMarker(labels: map<string, string>, key: string): (r: (string, string))
    ensures var marker := Lookup(labels, Prefix + key);
      Count(marker, '-') == 1 ==> r.0 + "-" + r.1 == marker && '-' !in r.0 && '-' !in r.1
    ensures var marker := Lookup(labels, Prefix + key);
      Count(marker, '-') != 1 ==> r.1 == "" && '-' !in r.0 && (r.0 == marker || HasPrefix(marker, r.0 + "-"))
  {
    var marker := Lookup(labels, Prefix + key);
    var vs := Split(marker, '-');
    FirstPiece(marker, '-');
    if |vs| == 2 then
      JoinSplit(marker, '-');
      (vs[0], vs[1])
    else (vs[0], "")
  }

  /** The first piece of a split is everything before the first separator. */
  lemma {:induction false} FirstPiece(s: string, sep: char)
    ensures var p := Split(s, sep)[0]; p == s || HasPrefix(s, p + [sep])
    decreases |s|
  {
    if |s| > 0 && s[0] != sep {
      FirstPiece(s[1..], sep);
      var p := Split(s[1..], sep)[0];
      if p != s[1..] {
        assert s[..|p| + 2] == [s[0]] + s[1..][..|p| + 1];
      } else {
        assert [s[0]] + p == s;
      }
    }
  }

  /** A marker reads back as the value and hash it was written with, when neither holds a '-'. */
  lemma RefMarkerRoundTrip(labels: map<string, string>, key: string, value: string, hash: string)
    requires '-' !in value && '-' !in hash
    ensures GetRefMarker(labels[Prefix + key := value + "-" + hash], key) == (value, hash)
  {
    SplitAtSep(value, '-', hash);
    SplitNoSep(hash, '-');
  }

  /** Without a marker both halves are empty. */
  lemma RefMarkerMissing(labels: map<string, string>, key: string)
    requires Prefix + key !in labels
    ensures GetRefMarker(labels, key) == ("", "")
  {
  }

  /** Drops the marker for `key`; nothing changes when there is none. */
  method RemoveRefMarker(obj: KubeObject, key: string)
    modifies obj
    ensures obj.labels == old(obj.labels) - {Prefix + key}
    ensures obj.annotations == old(obj.annotations)
  {
    obj.labels := obj.labels - {Prefix + key};
  }

  /** Sets the session label. */
  method AddLabel(obj: KubeObject, session: string, value: string)
    modifies obj
    ensures obj.labels == old(obj.labels)[Prefix + session := value]
    ensures obj.annotations == old(obj.annotations)
  {
    obj.labels := obj.labels[Prefix + session := value];
  }

  /** The session label, or "" when there is none. */
  function GetLabel(labels: map<string, string>, session: string): string
  {
    Lookup(labels, Prefix + session)
  }

  /** Drops the session label; nothing changes when there is none. */
  method RemoveLabel(obj: KubeObject, session: string)
    modifies obj
    ensures obj.labels == old(obj.labels) - {Prefix + session}
    ensures obj.annotations == old(obj.annotations)
  {
    obj.labels := obj.labels - {Prefix + session};
  }

  /** A label that was set reads back; one that was removed reads as ""; other sessions are untouched. */
  lemma LabelsRoundTrip(labels: map<string, string>, session: string, other: string, value: string)
    requires other != session
    ensures GetLabel(labels[Prefix + session := value], session) == value
    ensures GetLabel(labels - {Prefix + session}, session) == ""
    ensures GetLabel(labels[Prefix + session := value], other) == GetLabel(labels, other)
    ensures GetLabel(labels - {Prefix + session}, other) == GetLabel(labels, other)
  {
    assert other == (Prefix + other)[|Prefix|..];
  }
}
