// The activity log colours of the admin dashboard
// (src/components/AdminDashboard.tsx, getActionColor).

module ActivityColors {

  import opened Text

  const Other := "#607D8B"

  /** getActionColor: a switch over the lower-cased action. */
  function ActionColor(action: string): string {
    var a := ToLower(action);
    if a == "login" then "#4CAF50"
    else if a == "logout" then "#FF5722"
    else if a == "create" then "#2196F3"
    else if a == "update" then "#9C27B0"
    else if a == "delete" then "#F44336"
    else Other
  }

  /** The action's case does not matter, the five known actions have five different colours,
      and every other action, "view" included, gets the blue-grey one. */
  lemma ActionColorFacts(action: string)
    ensures ActionColor(action) == ActionColor(ToLower(action))
    ensures ActionColor(action) == Other <==> ToLower(action) !in {"login", "logout", "create", "update", "delete"}
    ensures forall a, b :: (a in {"login", "logout", "create", "update", "delete"}
      && b in {"login", "logout", "create", "update", "delete"} && a != b) ==> ActionColor(a) != ActionColor(b)
    ensures ActionColor("view") == Other
  {
    ToLowerIdempotent(action);
    forall a | a in {"login", "logout", "create", "update", "delete"}
      ensures ToLower(a) == a
    {
      assert forall i :: 0 <= i < |a| ==> !IsUpper(a[i]);
      LowerUnchanged(a);
    }
    assert ToLower("view") == "view" by {
      LowerUnchanged("view");
    }
  }

  /** A string without capital letters is its own lower case. */
  lemma LowerUnchanged(s: string)
    requires forall i :: 0 <= i < |s| ==> !IsUpper(s[i])
    ensures ToLower(s) == s
  {
  }
}
