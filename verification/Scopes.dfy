/** Scope tuples of a Work Context: structural validation, attenuation, and what a scope tuple grants. */
module Scopes {
  import opened Wrappers
  import opened Text

  const MAX_ID_BYTES: nat := 512
  const MAX_KIND_BYTES: nat := 128
  const MAX_SCOPES: nat := 64
  const MAX_SCOPE_ENTRIES: nat := 256

  datatype WorkScope = WorkScope(resourceKind: string, actions: seq<string>, resourceIds: seq<string>)

  datatype ScopeRequirement = ScopeRequirement(
    resourceKind: string, action: string, resourceId: string, requireExplicitResource: bool)

  predicate Bounded(value: string, limit: nat, required: bool) {
    (required ==> value != "") && Utf8Length(value) <= limit
  }

  /** The bound is on the UTF-8 encoding; a required value is not empty. */
  lemma BoundedExactly(value: string, limit: nat)
    ensures Bounded(value, limit, true) <==> Fits(value, limit)
    ensures Bounded(value, limit, false) <==> |Utf8Encode(value)| <= limit
  {
    EmptyFits(value);
  }

  // ----- Structural validation -----

  ghost predicate ValidEntries(values: seq<string>, limit: nat) {
    && (forall i | 0 <= i < |values| :: Bounded(values[i], limit, true))
    && StrictlySorted(values)
  }

  ghost predicate ValidScope(scope: WorkScope) {
    && Bounded(scope.resourceKind, MAX_KIND_BYTES, true)
    && 1 <= |scope.actions| <= MAX_SCOPE_ENTRIES
    && ValidEntries(scope.actions, MAX_KIND_BYTES)
    && |scope.resourceIds| <= MAX_SCOPE_ENTRIES
    && ValidEntries(scope.resourceIds, MAX_ID_BYTES)
  }

  function Kinds(scopes: seq<WorkScope>): (kinds: seq<string>)
    ensures |kinds| == |scopes|
    ensures forall i | 0 <= i < |scopes| :: kinds[i] == scopes[i].resourceKind
  {
    seq(|scopes|, i requires 0 <= i < |scopes| => scopes[i].resourceKind)
  }

  ghost predicate ValidScopes(scopes: seq<WorkScope>) {
    && |scopes| <= MAX_SCOPES
    && (forall i | 0 <= i < |scopes| :: ValidScope(scopes[i]))
    && StrictlySorted(Kinds(scopes))
  }

  lemma ValidEntriesExactly(values: seq<string>, limit: nat)
    ensures ValidEntries(values, limit) <==>
            && (forall i | 0 <= i < |values| :: Fits(values[i], limit))
            && (forall i, j | 0 <= i < j < |values| :: Precedes(values[i], values[j]))
  {
    forall i | 0 <= i < |values| ensures Bounded(values[i], limit, true) <==> Fits(values[i], limit) {
      BoundedExactly(values[i], limit);
    }
    forall i, j | 0 <= i < j < |values|
      ensures Less(values[i], values[j]) <==> Precedes(values[i], values[j])
    {
      LessExactly(values[i], values[j]);
    }
  }

  lemma ValidPair(a: string, b: string, limit: nat)
    requires Ascii(a) && Ascii(b) && 1 <= |a| <= limit && 1 <= |b| <= limit
    ensures ValidEntries([a, b], limit) <==> Precedes(a, b)
  {
    AsciiLength(a);
    AsciiLength(b);
    ValidEntriesExactly([a, b], limit);
    assert [a, b][0] == a && [a, b][1] == b;
    BoundedExactly(a, limit);
    BoundedExactly(b, limit);
  }

  /** Upper case comes before lower case. */
  lemma MixedCaseIsValid()
    ensures ValidEntries(["Codefly", "warden"], 512) && !ValidEntries(["warden", "Codefly"], 512)
  {
    var a, b := "Codefly", "warden";
    assert SmallerAt(a, b, 0);
    LessExactly(a, b);
    LessExactly(b, a);
    if Less(b, a) {
      LessTransitive(a, b, a);
      LessIrreflexive(a);
    }
    ValidPair(a, b, 512);
    ValidPair(b, a, 512);
  }

  /** Every limit of a scope tuple, on the bytes of its strings. */
  lemma ValidScopesExactly(scopes: seq<WorkScope>)
    ensures ValidScopes(scopes) <==>
            && |scopes| <= 64
            && (forall i | 0 <= i < |scopes| ::
                  && Fits(scopes[i].resourceKind, 128)
                  && 1 <= |scopes[i].actions| <= 256 && ValidEntries(scopes[i].actions, 128)
                  && |scopes[i].resourceIds| <= 256 && ValidEntries(scopes[i].resourceIds, 512))
            && (forall i, j | 0 <= i < j < |scopes| :: Less(scopes[i].resourceKind, scopes[j].resourceKind))
  {
    forall i | 0 <= i < |scopes|
      ensures Bounded(scopes[i].resourceKind, 128, true) <==> Fits(scopes[i].resourceKind, 128)
    {
      BoundedExactly(scopes[i].resourceKind, 128);
    }
    var kinds := Kinds(scopes);
    assert StrictlySorted(kinds) <==>
           forall i, j | 0 <= i < j < |scopes| :: Less(scopes[i].resourceKind, scopes[j].resourceKind);
  }

  method ValidateSortedUnique(values: seq<string>, limit: nat) returns (ok: bool)
    ensures ok <==> ValidEntries(values, limit)
  {
    var previous := "";
    for i := 0 to |values|
      invariant forall k | 0 <= k < i :: Bounded(values[k], limit, true)
      invariant StrictlySorted(values[..i])
      invariant i > 0 ==> previous == values[i - 1]
    {
      var value := values[i];
      if !Bounded(value, limit, true) {
        return false;
      }
      if i > 0 && !Less(previous, value) {
        return false;
      }
      SortedExtends(values, i);
      previous := value;
    }
    assert values == values[..|values|];
    return true;
  }

  /** Comparing with the previous element only is enough, because the order is transitive. */
  lemma SortedExtends(values: seq<string>, i: nat)
    requires i < |values| && StrictlySorted(values[..i])
    requires i > 0 ==> Less(values[i - 1], values[i])
    ensures StrictlySorted(values[..i + 1])
  {
    forall j | 0 <= j < i ensures Less(values[j], values[i]) {
      if j < i - 1 {
        assert Less(values[..i][j], values[..i][i - 1]);
        LessTransitive(values[j], values[i - 1], values[i]);
      }
    }
    var longer := values[..i + 1];
    forall j, k | 0 <= j < k < |longer| ensures Less(longer[j], longer[k]) {
      if k < i {
        assert Less(values[..i][j], values[..i][k]);
      }
    }
  }

  method ValidateScopes(scopes: seq<WorkScope>) returns (ok: bool)
    ensures ok <==> ValidScopes(scopes)
  {
    if |scopes| > MAX_SCOPES {
      return false;
    }
    ghost var kinds := Kinds(scopes);
    var previousKind := "";
    for i := 0 to |scopes|
      invariant forall k | 0 <= k < i :: ValidScope(scopes[k])
      invariant StrictlySorted(kinds[..i])
      invariant previousKind == if i == 0 then "" else scopes[i - 1].resourceKind
    {
      var scope := scopes[i];
      if !Bounded(scope.resourceKind, MAX_KIND_BYTES, true) {
        return false;
      }
      if !Less(previousKind, scope.resourceKind) {
        assert i > 0 && !Less(kinds[i - 1], kinds[i]);
        return false;
      }
      SortedExtends(kinds, i);
      previousKind := scope.resourceKind;
      if !(1 <= |scope.actions| <= MAX_SCOPE_ENTRIES) {
        return false;
      }
      var actionsOk := ValidateSortedUnique(scope.actions, MAX_KIND_BYTES);
      if !actionsOk {
        return false;
      }
      if |scope.resourceIds| > MAX_SCOPE_ENTRIES {
        return false;
      }
      var idsOk := ValidateSortedUnique(scope.resourceIds, MAX_ID_BYTES);
      if !idsOk {
        return false;
      }
    }
    assert kinds == kinds[..|scopes|];
    return true;
  }

  // ----- Attenuation -----

  /** The scope a dictionary keyed by resource kind ends up holding: the last one of that kind. */
  function LastOfKind(scopes: seq<WorkScope>, kind: string): (found: Option<WorkScope>)
    ensures found.Some? ==> found.value in scopes && found.value.resourceKind == kind
    ensures found.None? ==> forall i | 0 <= i < |scopes| :: scopes[i].resourceKind != kind
  {
    if scopes == [] then
      None
    else
      var last := scopes[|scopes| - 1];
      if last.resourceKind == kind then Some(last) else LastOfKind(scopes[..|scopes| - 1], kind)
  }

  predicate Subset(child: seq<string>, parent: seq<string>) {
    forall v | v in child :: v in parent
  }

  /** `scope` asks for no more than `ancestor`; an ancestor without IDs covers every resource. */
  predicate Covers(ancestor: WorkScope, scope: WorkScope) {
    && Subset(scope.actions, ancestor.actions)
    && (ancestor.resourceIds != [] ==> scope.resourceIds != [] && Subset(scope.resourceIds, ancestor.resourceIds))
  }

  ghost predicate Attenuates(parent: seq<WorkScope>, child: seq<WorkScope>) {
    forall i | 0 <= i < |child| ::
      var ancestor := LastOfKind(parent, child[i].resourceKind);
      ancestor.Some? && Covers(ancestor.value, child[i])
  }

  method ScopesAttenuate(parent: seq<WorkScope>, child: seq<WorkScope>) returns (ok: bool)
    ensures ok <==> Attenuates(parent, child)
  {
    var parentByKind: map<string, WorkScope> := map[];
    for i := 0 to |parent|
      invariant forall k :: k in parentByKind <==> LastOfKind(parent[..i], k).Some?
      invariant forall k | k in parentByKind :: LastOfKind(parent[..i], k) == Some(parentByKind[k])
    {
      assert parent[..i + 1][..i] == parent[..i];
      parentByKind := parentByKind[parent[i].resourceKind := parent[i]];
    }
    assert parent == parent[..|parent|];
    for i := 0 to |child|
      invariant Attenuates(parent, child[..i])
    {
      var scope := child[i];
      if scope.resourceKind !in parentByKind {
        return false;
      }
      var ancestor := parentByKind[scope.resourceKind];
      if !Subset(scope.actions, ancestor.actions) {
        return false;
      }
      if ancestor.resourceIds != [] {
        if scope.resourceIds == [] || !Subset(scope.resourceIds, ancestor.resourceIds) {
          return false;
        }
      }
      assert child[..i + 1] == child[..i] + [scope];
    }
    assert child == child[..|child|];
    return true;
  }

  // ----- What a scope tuple grants -----

  /** The requirement passes the bounds that authorization puts on its caller's arguments. */
  predicate WellFormed(r: ScopeRequirement) {
    && Bounded(r.resourceKind, MAX_KIND_BYTES, true)
    && Bounded(r.action, MAX_KIND_BYTES, true)
    && Bounded(r.resourceId, MAX_ID_BYTES, r.requireExplicitResource)
  }

  predicate ScopeGrants(scope: WorkScope, r: ScopeRequirement) {
    && scope.resourceKind == r.resourceKind && r.action in scope.actions
    && (|| (scope.resourceIds == [] && !r.requireExplicitResource)
        || (r.resourceId != "" && r.resourceId in scope.resourceIds))
  }

  ghost predicate Grants(scopes: seq<WorkScope>, r: ScopeRequirement) {
    exists i | 0 <= i < |scopes| :: ScopeGrants(scopes[i], r)
  }

  /** Which scope grants a requirement: its kind and action, and the wildcard or the listed ID. */
  lemma GrantsExactly(scopes: seq<WorkScope>, r: ScopeRequirement)
    ensures Grants(scopes, r) <==>
            exists scope | scope in scopes ::
              && scope.resourceKind == r.resourceKind && r.action in scope.actions
              && (if scope.resourceIds == [] then !r.requireExplicitResource
                  else r.resourceId != "" && r.resourceId in scope.resourceIds)
  {
    forall i | 0 <= i < |scopes| ensures scopes[i] in scopes {
    }
  }

  method FindGrant(scopes: seq<WorkScope>, r: ScopeRequirement) returns (granted: bool)
    ensures granted <==> Grants(scopes, r)
  {
    for i := 0 to |scopes|
      invariant forall k | 0 <= k < i :: !ScopeGrants(scopes[k], r)
    {
      var scope := scopes[i];
      if scope.resourceKind != r.resourceKind || r.action !in scope.actions {
        continue;
      }
      if scope.resourceIds == [] && !r.requireExplicitResource {
        return true;
      }
      if r.resourceId != "" && r.resourceId in scope.resourceIds {
        return true;
      }
    }
    return false;
  }

  /** Everything `child` grants without demanding an explicit ID, `parent` grants too. */
  ghost predicate Contains(parent: seq<WorkScope>, child: seq<WorkScope>) {
    forall r: ScopeRequirement | WellFormed(r) && !r.requireExplicitResource && Grants(child, r) :: Grants(parent, r)
  }

  // ----- Attenuation is semantic containment -----

  ghost predicate KindsDistinct(scopes: seq<WorkScope>) {
    forall i, j | 0 <= i < j < |scopes| :: scopes[i].resourceKind != scopes[j].resourceKind
  }

  lemma ValidKindsDistinct(scopes: seq<WorkScope>)
    requires ValidScopes(scopes)
    ensures KindsDistinct(scopes)
  {
    var kinds := Kinds(scopes);
    forall i, j | 0 <= i < j < |scopes| ensures scopes[i].resourceKind != scopes[j].resourceKind {
      LessIrreflexive(kinds[i]);
      assert Less(kinds[i], kinds[j]);
    }
  }

  lemma {:induction false} LastOfDistinctKind(scopes: seq<WorkScope>, i: nat)
    requires KindsDistinct(scopes) && i < |scopes|
    ensures LastOfKind(scopes, scopes[i].resourceKind) == Some(scopes[i])
  {
    if i < |scopes| - 1 {
      LastOfDistinctKind(scopes[..|scopes| - 1], i);
    }
  }

  /** In a validated tuple the kinds are distinct, so the last scope of a kind is the only one. */
  lemma OnlyScopeOfKind(scopes: seq<WorkScope>, i: nat)
    requires ValidScopes(scopes) && i < |scopes|
    ensures LastOfKind(scopes, scopes[i].resourceKind) == Some(scopes[i])
  {
    ValidKindsDistinct(scopes);
    LastOfDistinctKind(scopes, i);
  }

  lemma AttenuatesThenContains(parent: seq<WorkScope>, child: seq<WorkScope>)
    requires Attenuates(parent, child)
    ensures Contains(parent, child)
  {
    forall r: ScopeRequirement | WellFormed(r) && !r.requireExplicitResource && Grants(child, r)
      ensures Grants(parent, r)
    {
      var i :| 0 <= i < |child| && ScopeGrants(child[i], r);
      var ancestor := LastOfKind(parent, r.resourceKind).value;
      var j :| 0 <= j < |parent| && parent[j] == ancestor;
      assert ScopeGrants(parent[j], r);
    }
  }

  /** The one scope of `parent` that can grant `r` is the one its kind names. */
  lemma GrantComesFromKind(scopes: seq<WorkScope>, r: ScopeRequirement)
    requires ValidScopes(scopes)
    ensures Grants(scopes, r) <==>
            LastOfKind(scopes, r.resourceKind).Some? && ScopeGrants(LastOfKind(scopes, r.resourceKind).value, r)
  {
    if Grants(scopes, r) {
      var i :| 0 <= i < |scopes| && ScopeGrants(scopes[i], r);
      OnlyScopeOfKind(scopes, i);
    }
  }

  lemma ContainsThenGrants(parent: seq<WorkScope>, child: seq<WorkScope>, i: nat, action: string, id: string)
    requires ValidScopes(parent) && ValidScopes(child) && Contains(parent, child) && i < |child|
    requires action in child[i].actions
    requires if child[i].resourceIds == [] then id == "" else id in child[i].resourceIds
    ensures LastOfKind(parent, child[i].resourceKind).Some?
    ensures ScopeGrants(LastOfKind(parent, child[i].resourceKind).value,
                        ScopeRequirement(child[i].resourceKind, action, id, false))
  {
    var r := ScopeRequirement(child[i].resourceKind, action, id, false);
    assert ValidScope(child[i]) && ScopeGrants(child[i], r) && WellFormed(r);
    GrantComesFromKind(parent, r);
  }

  lemma ContainsThenCovered(parent: seq<WorkScope>, child: seq<WorkScope>, i: nat)
    requires ValidScopes(parent) && ValidScopes(child) && Contains(parent, child) && i < |child|
    ensures LastOfKind(parent, child[i].resourceKind).Some?
    ensures Covers(LastOfKind(parent, child[i].resourceKind).value, child[i])
  {
    var scope := child[i];
    assert ValidScope(scope);
    var action, id := scope.actions[0], if scope.resourceIds == [] then "" else scope.resourceIds[0];
    ContainsThenGrants(parent, child, i, action, id);
    var ancestor := LastOfKind(parent, scope.resourceKind).value;
    forall a | a in scope.actions ensures a in ancestor.actions {
      ContainsThenGrants(parent, child, i, a, id);
    }
    if ancestor.resourceIds != [] {
      forall id | id in scope.resourceIds ensures id in ancestor.resourceIds {
        ContainsThenGrants(parent, child, i, action, id);
      }
    }
  }

  /** The attenuation check decides exactly whether the child can do only what the parent can. */
  lemma AttenuationIsContainment(parent: seq<WorkScope>, child: seq<WorkScope>)
    requires ValidScopes(parent) && ValidScopes(child)
    ensures Attenuates(parent, child) <==> Contains(parent, child)
  {
    if Attenuates(parent, child) {
      AttenuatesThenContains(parent, child);
    }
    if Contains(parent, child) {
      forall i | 0 <= i < |child|
        ensures LastOfKind(parent, child[i].resourceKind).Some?
        ensures Covers(LastOfKind(parent, child[i].resourceKind).value, child[i])
      {
        ContainsThenCovered(parent, child, i);
      }
    }
  }

  // ----- Attenuation is a partial order -----

  lemma AttenuationReflexive(scopes: seq<WorkScope>)
    requires ValidScopes(scopes)
    ensures Attenuates(scopes, scopes)
  {
    AttenuationIsContainment(scopes, scopes);
  }

  lemma AttenuationTransitive(a: seq<WorkScope>, b: seq<WorkScope>, c: seq<WorkScope>)
    requires ValidScopes(a) && ValidScopes(b) && ValidScopes(c)
    requires Attenuates(a, b) && Attenuates(b, c)
    ensures Attenuates(a, c)
  {
    AttenuationIsContainment(a, b);
    AttenuationIsContainment(b, c);
    AttenuationIsContainment(a, c);
  }

  lemma KindOfChildInParent(parent: seq<WorkScope>, child: seq<WorkScope>, kind: string)
    requires Attenuates(parent, child) && kind in Kinds(child)
    ensures kind in Kinds(parent)
  {
    var i :| 0 <= i < |child| && Kinds(child)[i] == kind;
    var ancestor := LastOfKind(parent, kind).value;
    var j :| 0 <= j < |parent| && parent[j] == ancestor;
    assert Kinds(parent)[j] == kind;
  }

  lemma AttenuationAntisymmetric(a: seq<WorkScope>, b: seq<WorkScope>)
    requires ValidScopes(a) && ValidScopes(b)
    requires Attenuates(a, b) && Attenuates(b, a)
    ensures a == b
  {
    forall kind ensures kind in Kinds(a) <==> kind in Kinds(b) {
      if kind in Kinds(a) { KindOfChildInParent(b, a, kind); }
      if kind in Kinds(b) { KindOfChildInParent(a, b, kind); }
    }
    SortedIsCanonical(Kinds(a), Kinds(b));
    forall i | 0 <= i < |a| ensures a[i] == b[i] {
      assert Kinds(a)[i] == Kinds(b)[i];
      OnlyScopeOfKind(a, i);
      OnlyScopeOfKind(b, i);
      assert Covers(a[i], b[i]) && Covers(b[i], a[i]);
      assert ValidScope(a[i]) && ValidScope(b[i]);
      SortedIsCanonical(a[i].actions, b[i].actions);
      SortedIsCanonical(a[i].resourceIds, b[i].resourceIds);
    }
  }

  /** A validated tuple is the canonical name of what it grants: no two tuples grant the same. */
  lemma SameGrantsSameScopes(a: seq<WorkScope>, b: seq<WorkScope>)
    requires ValidScopes(a) && ValidScopes(b)
    requires forall r: ScopeRequirement | WellFormed(r) && !r.requireExplicitResource :: Grants(a, r) <==> Grants(b, r)
    ensures a == b
  {
    AttenuationIsContainment(a, b);
    AttenuationIsContainment(b, a);
    AttenuationAntisymmetric(a, b);
  }

  // ----- Explicit-ID requirements -----

  /** Some scope of `child` lists IDs where `parent` holds the wildcard for that kind. */
  ghost predicate NarrowsWildcard(parent: seq<WorkScope>, child: seq<WorkScope>) {
    exists i | 0 <= i < |child| ::
      && child[i].resourceIds != []
      && LastOfKind(parent, child[i].resourceKind).Some?
      && LastOfKind(parent, child[i].resourceKind).value.resourceIds == []
  }

  ghost predicate ContainsExplicit(parent: seq<WorkScope>, child: seq<WorkScope>) {
    forall r: ScopeRequirement | WellFormed(r) && r.requireExplicitResource && Grants(child, r) :: Grants(parent, r)
  }

  /** With the explicit flag set, authority is monotone exactly when the child narrows no wildcard. */
  lemma ExplicitMonotoneIffNoWildcardNarrowed(parent: seq<WorkScope>, child: seq<WorkScope>)
    requires ValidScopes(parent) && ValidScopes(child) && Attenuates(parent, child)
    ensures ContainsExplicit(parent, child) <==> !NarrowsWildcard(parent, child)
  {
    forall r: ScopeRequirement | !NarrowsWildcard(parent, child) && r.requireExplicitResource && Grants(child, r)
      ensures Grants(parent, r)
    {
      var i :| 0 <= i < |child| && ScopeGrants(child[i], r);
      GrantComesFromKind(parent, r);
    }
    if NarrowsWildcard(parent, child) {
      var i :| 0 <= i < |child| && child[i].resourceIds != []
               && LastOfKind(parent, child[i].resourceKind).value.resourceIds == [];
      assert ValidScope(child[i]);
      var r := ScopeRequirement(child[i].resourceKind, child[i].actions[0], child[i].resourceIds[0], true);
      assert ScopeGrants(child[i], r) && WellFormed(r);
      GrantComesFromKind(parent, r);
    }
  }

  /** A valid narrowing of a wildcard gains an explicit grant its parent never had. */
  lemma NarrowedWildcardGainsExplicitGrant(kind: string, action: string, id: string)
    requires Bounded(kind, MAX_KIND_BYTES, true) && Bounded(action, MAX_KIND_BYTES, true)
             && Bounded(id, MAX_ID_BYTES, true)
    ensures var any, one := [WorkScope(kind, [action], [])], [WorkScope(kind, [action], [id])];
            var r := ScopeRequirement(kind, action, id, true);
            && ValidScopes(any) && ValidScopes(one) && Attenuates(any, one)
            && WellFormed(r) && Grants(one, r) && !Grants(any, r)
  {
    var any, one := [WorkScope(kind, [action], [])], [WorkScope(kind, [action], [id])];
    OnlyScopeOfKind(any, 0);
    assert ScopeGrants(one[0], ScopeRequirement(kind, action, id, true));
  }
}
