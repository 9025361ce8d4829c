/** The scope language of access tokens: parsing into permissions, and the access decision. */
module Scopes {
  import opened Text

  /** Actions by namespace. */
  type Permissions = map<string, set<string>>

  function ToSet(parts: seq<string>): set<string> { set a | a in parts }

  /** The namespace of a scope: what stands before the first ":", or "any" when that is empty. */
  function Namespace(s: string): string {
    var ns := s[..Find(s, ':')];
    if ns == "" then "any" else ns
  }

  /** The actions of a scope: what stands after the first ":", split at further ones, or "any". */
  function Actions(s: string): set<string> {
    var i := Find(s, ':');
    if i == |s| then {"any"} else ToSet(Split(s[i + 1..], ':'))
  }

  /** The last scope of a namespace decides. */
  function Permitted(scopes: seq<string>): Permissions {
    if scopes == [] then map[]
    else
      var s := scopes[|scopes| - 1];
      Permitted(scopes[..|scopes| - 1])[Namespace(s) := Actions(s)]
  }

  lemma PermittedNothing()
    ensures Permitted([]) == map[]
  {
  }

  lemma PermittedNext(scopes: seq<string>, i: nat)
    requires i < |scopes|
    ensures Permitted(scopes[..i + 1]) == Permitted(scopes[..i])[Namespace(scopes[i]) := Actions(scopes[i])]
  {
    assert scopes[..i + 1][..i] == scopes[..i];
  }

  method Scope2Dict(scopes: seq<string>) returns (permissions: Permissions)
    ensures permissions == Permitted(scopes)
  {
    hide Permitted, Split, Find;
    PermittedNothing();
    permissions := map[];
    for i := 0 to |scopes|
      invariant permissions == Permitted(scopes[..i])
    {
      PermittedNext(scopes, i);
      var s := scopes[i];
      var colon := Find(s, ':');
      var ns, actions := s[..colon], {"any"};
      if colon < |s| {
        actions := ToSet(Split(s[colon + 1..], ':'));
      }
      if ns == "" {
        ns := "any";
      }
      permissions := permissions[ns := actions];
    }
    assert scopes[..|scopes|] == scopes;
  }

  /** One required namespace is met by what the user holds in it. */
  predicate Matches(required: set<string>, held: set<string>) {
    required * held != {} || "any" in required
  }

  /** The decision, over permissions. */
  predicate Grants(required: Permissions, held: Permissions, requireAll: bool) {
    && (requireAll ==> required.Keys <= held.Keys || "any" in required)
    && exists ns <- required :: ns in held && Matches(required[ns], held[ns])
  }

  /**
    `validate`. `requireAllActions` is accepted and plays no part; without
    `requireAll` the test of the empty intersection compares a set with a number
    and never rejects.
   */
  method Validate(scopes: seq<string>, userScopes: seq<string>, requireAll: bool, requireAllActions: bool)
    returns (ok: bool)
    ensures ok <==> Grants(Permitted(scopes), Permitted(userScopes), requireAll)
  {
    hide Permitted;
    var userPerms := Scope2Dict(userScopes);
    var required := Scope2Dict(scopes);
    var intersection := required.Keys * userPerms.Keys;
    if requireAll {
      AllHeld(required.Keys, userPerms.Keys);
      if |required.Keys| != |intersection| && "any" !in required {
        return false;
      }
    }
    var matched := 0;
    var todo := intersection;
    while todo != {}
      invariant todo <= intersection
      invariant matched > 0 <==> exists ns <- intersection - todo :: Matches(required[ns], userPerms[ns])
      invariant matched >= 0
      decreases todo
    {
      var ns :| ns in todo;
      var actionsMatched := required[ns] * userPerms[ns];
      if |actionsMatched| > 0 || "any" in required[ns] {
        matched := matched + 1;
      }
      ghost var done := intersection - todo;
      todo := todo - {ns};
      assert intersection - todo == done + {ns};
    }
    assert intersection - todo == intersection;
    return matched != 0;
  }

  lemma AllHeld(required: set<string>, held: set<string>)
    ensures |required| == |required * held| <==> required <= held
  {
    if required <= held {
      assert required * held == required;
    } else {
      var x :| x in required && x !in held;
      assert |required * held| <= |required - {x}| by { SubsetSize(required * held, required - {x}); }
    }
  }

  lemma {:induction false} SubsetSize(a: set<string>, b: set<string>)
    requires a <= b
    ensures |a| <= |b|
  {
    if a != {} {
      var x :| x in a;
      SubsetSize(a - {x}, b - {x});
    }
  }

  // ---------- laws of the decision ----------

  predicate DistinctNamespaces(scopes: seq<string>) {
    forall i, j | 0 <= i < j < |scopes| :: Namespace(scopes[i]) != Namespace(scopes[j])
  }

  /** With distinct namespaces every scope stands for itself. */
  lemma {:induction false} PermittedMeans(scopes: seq<string>)
    requires DistinctNamespaces(scopes)
    ensures forall i | 0 <= i < |scopes| ::
              Namespace(scopes[i]) in Permitted(scopes) && Permitted(scopes)[Namespace(scopes[i])] == Actions(scopes[i])
    ensures forall ns <- Permitted(scopes) :: exists i | 0 <= i < |scopes| :: ns == Namespace(scopes[i])
  {
    hide Namespace, Actions;
    if scopes != [] {
      var n := |scopes| - 1;
      PermittedMeans(scopes[..n]);
      forall ns <- Permitted(scopes) ensures exists i | 0 <= i < |scopes| :: ns == Namespace(scopes[i]) {
        if ns != Namespace(scopes[n]) {
          var i :| 0 <= i < n && ns == Namespace(scopes[..n][i]);
          assert ns == Namespace(scopes[i]);
        }
      }
    }
  }

  /** The order of scopes with distinct namespaces plays no part in any decision. */
  lemma OrderIsIrrelevant(scopes: seq<string>, scopes': seq<string>)
    requires DistinctNamespaces(scopes) && DistinctNamespaces(scopes')
    requires multiset(scopes) == multiset(scopes')
    ensures Permitted(scopes) == Permitted(scopes')
  {
    hide Namespace, Actions;
    PermittedMeans(scopes);
    PermittedMeans(scopes');
    assert forall s :: s in scopes <==> s in multiset(scopes);
    assert forall s :: s in scopes' <==> s in multiset(scopes');
    HalfIrrelevant(scopes, scopes');
    HalfIrrelevant(scopes', scopes);
  }

  lemma HalfIrrelevant(scopes: seq<string>, scopes': seq<string>)
    requires DistinctNamespaces(scopes) && DistinctNamespaces(scopes')
    requires forall s <- scopes :: s in scopes'
    ensures forall ns <- Permitted(scopes) ::
              ns in Permitted(scopes') && Permitted(scopes')[ns] == Permitted(scopes)[ns]
  {
    hide Namespace, Actions;
    PermittedMeans(scopes);
    PermittedMeans(scopes');
    forall ns <- Permitted(scopes) ensures ns in Permitted(scopes') && Permitted(scopes')[ns] == Permitted(scopes)[ns] {
      var i :| 0 <= i < |scopes| && ns == Namespace(scopes[i]);
      assert scopes[i] in scopes';
      var j :| 0 <= j < |scopes'| && scopes'[j] == scopes[i];
      assert ns == Namespace(scopes'[j]);
    }
  }

  /**
    Asking for all namespaces is the stricter question: it adds exactly that all are held,
    and adds nothing when "any" is among them.
   */
  lemma RequireAllIsStricter(required: Permissions, held: Permissions)
    ensures Grants(required, held, true) ==> Grants(required, held, false)
    ensures "any" in required ==> (Grants(required, held, true) <==> Grants(required, held, false))
    ensures "any" !in required ==>
              (Grants(required, held, true) <==>
               Grants(required, held, false) && forall ns <- required :: ns in held)
  {
  }

  /** One scope asked of one scope: the namespaces agree, and the actions do or any is asked for. */
  lemma OneScopeOfOne(ns: string, action: string, ns': string, action': string, requireAll: bool)
    requires ns != "" && ':' !in ns && ':' !in action && ns' != "" && ':' !in ns' && ':' !in action'
    ensures Grants(Permitted([ns + ":" + action]), Permitted([ns' + ":" + action']), requireAll) <==>
            ns == ns' && (action == action' || action == "any")
  {
    ScopeTextMeans(ns, action);
    ScopeTextMeans(ns', action');
    hide Namespace, Actions;
    OnlyScope(ns + ":" + action);
    OnlyScope(ns' + ":" + action');
    hide Permitted;
    var required, held := map[ns := {action}], map[ns' := {action'}];
    if action == action' {
      assert action in {action} * {action'};
    }
    if ns == ns' {
      assert required[ns] == {action} && held[ns] == {action'};
    }
  }

  lemma OnlyScope(s: string)
    ensures Permitted([s]) == map[Namespace(s) := Actions(s)]
  {
    assert [s][..0] == [];
  }

  /** A scope lists its actions after its namespace; a missing part stands for "any". */
  lemma ScopeReads(ns: string, actions: seq<string>)
    requires ':' !in ns && actions != [] && forall a <- actions :: ':' !in a
    ensures Namespace(ns) == Namespace(ns + ":" + Join(actions, ":")) == if ns == "" then "any" else ns
    ensures Actions(ns) == {"any"}
    ensures forall a :: a in Actions(ns + ":" + Join(actions, ":")) <==> a in actions
  {
    var rest := Join(actions, ":");
    FindFirst(ns, ':', rest);
    SplitAt(ns, ':', rest);
    assert Find(ns, ':') == |ns| && ns[..|ns|] == ns;
    SplitJoin(actions, ':');
    hide Split, Join, Find;
  }

  lemma {:induction false} SplitJoin(parts: seq<string>, c: char)
    requires parts != [] && forall p <- parts :: c !in p
    ensures Split(Join(parts, [c]), c) == parts
  {
    if |parts| == 1 {
      NotFound(parts[0], c);
    } else {
      SplitJoin(parts[1..], c);
      SplitStep(parts[0], c, Join(parts[1..], [c]));
      assert parts == [parts[0]] + parts[1..];
    }
  }

  /** The text of a scope with one action. */
  function ScopeText(ns: string, action: string): string { ns + ":" + action }

  lemma ScopeTextMeans(ns: string, action: string)
    requires ns != "" && ':' !in ns && ':' !in action
    ensures Namespace(ScopeText(ns, action)) == ns && Actions(ScopeText(ns, action)) == {action}
  {
    var s := ScopeText(ns, action);
    assert s == ns + [':'] + action;
    FindFirst(ns, ':', action);
    assert s[..|ns|] == ns && s[|ns| + 1..] == action;
    assert Find(action, ':') == |action|;
    assert Split(action, ':') == [action];
  }

  lemma ParsedPartsHaveNoColon(s: string)
    ensures Namespace(s) != "" && ':' !in Namespace(s)
    ensures forall a <- Actions(s) :: ':' !in a
  {
  }

  /** No request accepted for a user is rejected once the user is granted `s` as well. */
  ghost predicate NeverHurts(userScopes: seq<string>, s: string) {
    forall scopes: seq<string>, requireAll: bool ::
      Grants(Permitted(scopes), Permitted(userScopes), requireAll) ==>
        Grants(Permitted(scopes), Permitted(userScopes + [s]), requireAll)
  }

  /**
    Granting one more scope takes nothing away exactly when its namespace is new
    to the user, or it repeats every action held there other than "any".
   */
  lemma GrantingIsMonotoneExactly(userScopes: seq<string>, s: string)
    ensures var held := Permitted(userScopes);
            NeverHurts(userScopes, s) <==>
            Namespace(s) !in held || held[Namespace(s)] - {"any"} <= Actions(s)
  {
    var held, ns := Permitted(userScopes), Namespace(s);
    var after := Permitted(userScopes + [s]);
    assert (userScopes + [s])[..|userScopes|] == userScopes;
    assert after == held[ns := Actions(s)];
    hide Namespace, Actions;
    if ns !in held || held[ns] - {"any"} <= Actions(s) {
      forall scopes: seq<string>, requireAll: bool | Grants(Permitted(scopes), held, requireAll)
        ensures Grants(Permitted(scopes), after, requireAll)
      {
        var required := Permitted(scopes);
        var m :| m in required && m in held && Matches(required[m], held[m]);
        assert Matches(required[m], after[m]);
      }
    } else {
      var a :| a in held[ns] - {"any"} && a !in Actions(s);
      var scopes := GrantHurts(userScopes, s, a);
    }
  }

  /** The one-action request that such a grant turns from accept into reject. */
  lemma GrantHurts(userScopes: seq<string>, s: string, a: string) returns (scopes: seq<string>)
    requires Namespace(s) in Permitted(userScopes)
    requires a in Permitted(userScopes)[Namespace(s)] - {"any"} && a !in Actions(s)
    ensures Grants(Permitted(scopes), Permitted(userScopes), true)
    ensures !Grants(Permitted(scopes), Permitted(userScopes + [s]), true)
  {
    hide Namespace, Actions, ScopeText;
    var held, ns := Permitted(userScopes), Namespace(s);
    assert (userScopes + [s])[..|userScopes|] == userScopes;
    var after := Permitted(userScopes + [s]);
    assert after == held[ns := Actions(s)];
    HeldAction(userScopes, ns, a);
    ScopeTextMeans(ns, a);
    scopes := [ScopeText(ns, a)];
    assert Permitted(scopes[..0]) == map[] && scopes[|scopes| - 1] == ScopeText(ns, a);
    var required := Permitted(scopes);
    assert required == map[ns := {a}];
    hide Permitted;
    assert a in required[ns] * held[ns];
    assert required[ns] * after[ns] == {};
  }

  lemma {:induction false} HeldAction(scopes: seq<string>, ns: string, a: string)
    requires ns in Permitted(scopes) && a in Permitted(scopes)[ns]
    ensures ns != "" && ':' !in ns && ':' !in a
  {
    hide Namespace, Actions;
    var n := |scopes| - 1;
    ParsedPartsHaveNoColon(scopes[n]);
    if ns != Namespace(scopes[n]) {
      HeldAction(scopes[..n], ns, a);
    }
  }
}
