/** The bounded permission vocabulary and its normalized sets. */
module Permissions {
  import opened Domain
  import Text

  const FULL_ACCESS := "full_access"

  predicate IsPermission(s: string) {
    s in {FULL_ACCESS, "user:read", "user:write", "user:update", "user:delete",
          "user:change_role", "user:change_status"}
  }

  /** A permission set is its permissions in byte order, each once. */
  type PermissionSet = seq<string>

  predicate Normal(values: PermissionSet) {
    Text.StrictlySorted(values) && forall p :: p in values ==> IsPermission(p)
  }

  function NormalForm(permissions: seq<string>): (result: Option<PermissionSet>)
    ensures result.Some? <==> forall p :: p in permissions ==> IsPermission(p)
    ensures result.Some? ==> Normal(result.value) && forall p :: p in result.value <==> p in permissions
  {
    if forall p :: p in permissions ==> IsPermission(p) then Some(Text.SortedSet(permissions)) else None
  }

  /** Two lists with the same permissions have the same values, and values are their own normal form. */
  lemma NormalFormCanonical(a: seq<string>, b: seq<string>)
    requires NormalForm(a).Some? && NormalForm(b).Some?
    ensures NormalForm(a) == NormalForm(b) <==> (forall p :: p in a <==> p in b)
    ensures NormalForm(NormalForm(a).value) == NormalForm(a)
  {
    Text.SortedSetOfSorted(NormalForm(a).value);
    if forall p :: p in a <==> p in b {
      Text.SortedSetCanonical(a, b);
    }
  }

  predicate Holds(values: PermissionSet, required: string) {
    IsPermission(required) && (required in values || FULL_ACCESS in values)
  }

  /** Collects the distinct permissions in whatever order the map yields them, then sorts. */
  method NewPermissionSet(permissions: seq<string>) returns (result: Option<PermissionSet>)
    ensures result == NormalForm(permissions)
  {
    var unique: set<string> := {};
    for i := 0 to |permissions|
      invariant forall p :: p in unique <==> p in permissions[..i]
      invariant forall p :: p in unique ==> IsPermission(p)
    {
      if !IsPermission(permissions[i]) {
        return None;
      }
      unique := unique + {permissions[i]};
      assert permissions[..i + 1] == permissions[..i] + [permissions[i]];
    }
    assert permissions[..|permissions|] == permissions;
    var values: seq<string> := [];
    var pending := unique;
    while pending != {}
      invariant forall p :: p in permissions <==> p in values || p in pending
      decreases |pending|
    {
      var p :| p in pending;
      values := values + [p];
      pending := pending - {p};
    }
    Text.SortedSetCanonical(values, permissions);
    result := Some(Text.SortedSet(values));
  }

  method Has(values: PermissionSet, required: string) returns (found: bool)
    ensures found == Holds(values, required)
  {
    if !IsPermission(required) {
      return false;
    }
    for i := 0 to |values|
      invariant required !in values[..i] && FULL_ACCESS !in values[..i]
    {
      if values[i] == required || values[i] == FULL_ACCESS {
        return true;
      }
      assert values[..i + 1] == values[..i] + [values[i]];
    }
    assert values[..|values|] == values;
    return false;
  }
}
