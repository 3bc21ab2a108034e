/** What a clean run of the branch-protection gate establishes. */
module BranchPolicyLaws {
  import opened Wrappers
  import opened Json
  import opened Text
  import opened BranchPolicy

  // ----- declared checks -----

  /** A declared check that names its context and its app. */
  predicate GoodCheck(check: Json) {
    check.Obj? && ContextOf(check).Some? && Get(check, "app_id").Some? && IntegerOrNull(Get(check, "app_id").value)
  }

  /** Every check is good and no context is named twice. */
  ghost predicate GoodChecks(checks: seq<Json>) {
    (forall i :: 0 <= i < |checks| ==> GoodCheck(checks[i])) && NoneRepeats(checks)
  }

  ghost predicate NoneRepeats(checks: seq<Json>) {
    forall i, j :: 0 <= i < j < |checks| ==> ContextOf(checks[i]) != ContextOf(checks[j])
  }

  lemma GoodIsNamed(check: Json)
    requires GoodCheck(check)
    ensures ContextOf(check).Some?
  {}

  lemma CheckClean(check: Json, index: nat, seen: set<string>)
    ensures CheckIssues(check, index, seen) == [] <==> GoodCheck(check) && ContextOf(check).value !in seen
  {
    hide ContextOf;
  }

  lemma {:induction false} CheckListClean(checks: seq<Json>, index: nat, seen: set<string>)
    requires index <= |checks|
    ensures CheckListIssues(checks, index, seen) == [] <==>
      && (forall i :: index <= i < |checks| ==> GoodCheck(checks[i]) && ContextOf(checks[i]).value !in seen)
      && forall i, j :: index <= i < j < |checks| ==> ContextOf(checks[i]) != ContextOf(checks[j])
    decreases |checks| - index
  {
    hide CheckListIssues, CheckIssues, GoodCheck, ContextOf;
    CheckListStep(checks, index, seen);
    if index < |checks| {
      var check := checks[index];
      CheckClean(check, index, seen);
      CheckListClean(checks, index + 1, seen + Named(check));
      forall i | 0 <= i < |checks| && GoodCheck(checks[i]) ensures ContextOf(checks[i]).Some? {
        GoodIsNamed(checks[i]);
      }
    }
  }

  /** The declared checks are accepted exactly when they are a non-empty list of good, distinct checks. */
  lemma DeclaredChecksClean(declared: Json)
    ensures RequiredCheckIssues(declared) == [] <==>
      declared.Arr? && declared.items != [] && GoodChecks(declared.items)
  {
    if declared.Arr? {
      CheckListClean(declared.items, 0, {});
    }
  }

  // ----- required checks: live against declared -----

  lemma {:induction false} NamedLength(entries: seq<Json>)
    ensures |NamedEntries(entries)| <= |entries|
    ensures forall e :: e in NamedEntries(entries) <==> e in entries && ContextOf(e).Some?
    ensures |NamedEntries(entries)| == |entries| <==> forall e <- entries :: ContextOf(e).Some?
  {
    if entries != [] {
      NamedLength(entries[1..]);
      assert entries == [entries[0]] + entries[1..];
    }
  }

  lemma {:induction false} BindingsKeys(entries: seq<Json>)
    ensures forall c :: c in Bindings(entries) <==> exists e <- entries :: ContextOf(e) == Some(c)
  {
    if entries != [] {
      var init, last := entries[..|entries| - 1], entries[|entries| - 1];
      assert entries == init + [last];
      BindingsKeys(init);
    }
  }

  lemma RepeatsLast(init: seq<Json>, last: Json)
    requires forall i :: 0 <= i < |init| ==> ContextOf(init[i]).Some?
    requires ContextOf(last).Some?
    ensures NoneRepeats(init + [last]) <==> NoneRepeats(init) && ContextOf(last).value !in Bindings(init)
  {
    hide ContextOf, Bindings;
    BindingsKeys(init);
    var all := init + [last];
    if NoneRepeats(all) {
      forall i, j | 0 <= i < j < |init| ensures ContextOf(init[i]) != ContextOf(init[j]) {
        assert all[i] == init[i] && all[j] == init[j];
      }
      forall e | e in init ensures ContextOf(e) != ContextOf(last) {
        var i :| 0 <= i < |init| && init[i] == e;
        assert all[i] == e && all[|init|] == last;
      }
    }
    if NoneRepeats(init) && ContextOf(last).value !in Bindings(init) {
      forall i, j | 0 <= i < j < |all| ensures ContextOf(all[i]) != ContextOf(all[j]) {
        assert all[i] == init[i] && init[i] in init;
      }
    }
  }

  /** With every record named, as many bindings as records means no context repeats. */
  lemma {:induction false} BindingsCount(entries: seq<Json>)
    requires forall i :: 0 <= i < |entries| ==> ContextOf(entries[i]).Some?
    ensures |Bindings(entries)| <= |entries|
    ensures |Bindings(entries)| == |entries| <==> NoneRepeats(entries)
  {
    hide ContextOf, GetOrNull, NoneRepeats;
    if entries == [] {
      NothingRepeats();
    } else {
      var init, last := entries[..|entries| - 1], entries[|entries| - 1];
      assert entries == init + [last];
      BindingsCount(init);
      RepeatsLast(init, last);
      var context := ContextOf(last).value;
      if context in Bindings(init) {
        assert Bindings(entries).Keys == Bindings(init).Keys;
      } else {
        assert Bindings(entries).Keys == Bindings(init).Keys + {context};
      }
      assert |Bindings(entries)| == |Bindings(entries).Keys| && |Bindings(init)| == |Bindings(init).Keys|;
    }
  }

  lemma NothingRepeats()
    ensures NoneRepeats([])
  {}

  lemma {:induction false} BindingsTyped(entries: seq<Json>)
    requires forall i :: 0 <= i < |entries| ==> GoodCheck(entries[i])
    ensures forall c :: c in Bindings(entries) ==> IntegerOrNull(Bindings(entries)[c])
  {
    if entries != [] {
      BindingsTyped(entries[..|entries| - 1]);
    }
  }

  lemma SameBinding(a: Json, b: Json)
    requires IntegerOrNull(a) && IntegerOrNull(b)
    ensures PyEqual(a, b) <==> a == b
  {}

  /**
   Exactness: against a validated declaration the comparison is clean exactly when every live entry
   is a well-formed record, no context repeats, and the live bindings are the declared ones.
   */
  lemma RequiredChecksExact(live: Json, declared: seq<Json>)
    requires GoodChecks(declared)
    ensures CompareChecks(live, declared) == [] <==>
      && LiveEntries(live).Some? && GoodChecks(LiveEntries(live).value)
      && Bindings(LiveEntries(live).value) == Bindings(declared)
  {
    hide ContextOf, NamedEntries, Bindings, PyEqual;
    if LiveEntries(live).Some? {
      var entries := LiveEntries(live).value;
      NamedLength(entries);
      BindingsTyped(declared);
      if CompareChecks(live, declared) == [] {
        CleanChecksAreGood(live, entries, declared);
      } else if GoodChecks(entries) && Bindings(entries) == Bindings(declared) {
        AllNamed(entries);
        BindingsCount(entries);
        forall c | c in Bindings(declared) ensures PyEqual(Bindings(entries)[c], Bindings(declared)[c]) {
          SameBinding(Bindings(entries)[c], Bindings(declared)[c]);
        }
        assert forall e <- entries :: GoodCheck(e);
      }
    }
  }

  lemma {:induction false} AllNamed(entries: seq<Json>)
    requires forall i :: 0 <= i < |entries| ==> ContextOf(entries[i]).Some?
    ensures NamedEntries(entries) == entries
  {
    if entries != [] {
      AllNamed(entries[1..]);
    }
  }

  lemma CleanChecksAreGood(live: Json, entries: seq<Json>, declared: seq<Json>)
    requires GoodChecks(declared) && LiveEntries(live) == Some(entries) && CompareChecks(live, declared) == []
    ensures GoodChecks(entries) && Bindings(entries) == Bindings(declared)
  {
    hide ContextOf, LiveEntries, NamedEntries, Bindings, PyEqual, CompareChecks, GoodCheck, NoneRepeats;
    CleanEntries(live, entries, declared);
    KeysAgree(live, entries, declared);
    assert forall i :: 0 <= i < |entries| ==> ContextOf(entries[i]).Some? by { GoodAreNamed(entries); }
    AllNamed(entries);
    BindingsCount(entries);
    BindingsTyped(entries);
    BindingsTyped(declared);
    var ours, theirs := Bindings(declared), Bindings(entries);
    forall c | c in ours ensures theirs[c] == ours[c] {
      SameBinding(theirs[c], ours[c]);
    }
    assert theirs == ours;
  }

  lemma GoodAreNamed(entries: seq<Json>)
    requires forall i :: 0 <= i < |entries| ==> GoodCheck(entries[i])
    ensures forall i :: 0 <= i < |entries| ==> ContextOf(entries[i]).Some?
  {}

  lemma KeysAgree(live: Json, entries: seq<Json>, declared: seq<Json>)
    requires LiveEntries(live) == Some(entries) && CompareChecks(live, declared) == []
    ensures var ours, theirs := Bindings(declared), Bindings(entries);
      && |theirs| == |NamedEntries(entries)|
      && theirs.Keys == ours.Keys
      && forall c :: c in ours ==> PyEqual(theirs[c], ours[c])
  {
    hide ContextOf, LiveEntries, NamedEntries, Bindings, PyEqual;
  }

  lemma CleanEntries(live: Json, entries: seq<Json>, declared: seq<Json>)
    requires LiveEntries(live) == Some(entries) && CompareChecks(live, declared) == []
    ensures forall i :: 0 <= i < |entries| ==> GoodCheck(entries[i])
  {
    NamedLength(entries);
    hide ContextOf, LiveEntries, NamedEntries, Bindings, PyEqual;
    forall i | 0 <= i < |entries| ensures GoodCheck(entries[i]) {
      assert entries[i] in entries;
    }
  }

  // ----- checks, told from the document alone -----

  /** The record binds a context that is not blank to an app, or to none. */
  ghost predicate IsCheck(check: Json, context: string, app: Json) {
    && check.Obj? && Lookup(check.members, "context") == Some(Str(context)) && !AllSpace(context)
    && Lookup(check.members, "app_id") == Some(app) && (app.Int? || app.Null?)
  }

  ghost predicate BindsTo(checks: seq<Json>, context: string, app: Json) {
    exists i :: 0 <= i < |checks| && IsCheck(checks[i], context, app)
  }

  /** Every record binds a context, and no two the same one. */
  ghost predicate SoundChecks(checks: seq<Json>) {
    (forall i :: 0 <= i < |checks| ==> IsSomeCheck(checks[i])) && Unrepeated(checks)
  }

  ghost predicate IsSomeCheck(check: Json) {
    exists context, app :: IsCheck(check, context, app)
  }

  ghost predicate Unrepeated(checks: seq<Json>) {
    forall i, j, context, app, other :: 0 <= i < j < |checks| && IsCheck(checks[i], context, app)
      ==> !IsCheck(checks[j], context, other)
  }

  /** Two lists of records bind the same contexts to the same apps. */
  ghost predicate SameBindings(xs: seq<Json>, ys: seq<Json>) {
    forall context, app :: BindsTo(xs, context, app) <==> BindsTo(ys, context, app)
  }

  lemma ContextExactly(check: Json, context: string)
    ensures ContextOf(check) == Some(context)
      <==> check.Obj? && Lookup(check.members, "context") == Some(Str(context)) && !AllSpace(context)
  {
    StripAllSpace(context);
    hide Strip, AllSpace;
  }

  lemma CheckExactly(check: Json, context: string, app: Json)
    ensures IsCheck(check, context, app)
      <==> GoodCheck(check) && ContextOf(check) == Some(context) && GetOrNull(check, "app_id") == app
  {
    ContextExactly(check, context);
    hide ContextOf, AllSpace;
  }

  lemma GoodExactly(check: Json)
    ensures GoodCheck(check) <==> IsSomeCheck(check)
  {
    hide IsCheck, ContextOf;
    if GoodCheck(check) {
      CheckExactly(check, ContextOf(check).value, GetOrNull(check, "app_id"));
    }
    if context, app :| IsCheck(check, context, app) {
      CheckExactly(check, context, app);
    }
  }

  lemma UnrepeatedExactly(checks: seq<Json>)
    requires forall i :: 0 <= i < |checks| ==> GoodCheck(checks[i])
    ensures Unrepeated(checks) <==> NoneRepeats(checks)
  {
    forall i | 0 <= i < |checks| ensures ContextOf(checks[i]).Some? {
      GoodIsNamed(checks[i]);
    }
    hide IsCheck, GoodCheck, ContextOf;
    forall i, j | 0 <= i < |checks| && 0 <= j < |checks|
      ensures forall context, app :: IsCheck(checks[i], context, app) ==> ContextOf(checks[i]) == Some(context)
      ensures ContextOf(checks[i]) == ContextOf(checks[j]) ==>
        IsCheck(checks[j], ContextOf(checks[i]).value, GetOrNull(checks[j], "app_id"))
    {
      forall context, app | IsCheck(checks[i], context, app) ensures ContextOf(checks[i]) == Some(context) {
        CheckExactly(checks[i], context, app);
      }
      CheckExactly(checks[j], ContextOf(checks[i]).value, GetOrNull(checks[j], "app_id"));
    }
    if Unrepeated(checks) {
      forall i, j | 0 <= i < j < |checks| ensures ContextOf(checks[i]) != ContextOf(checks[j]) {
        assert ContextOf(checks[i]) == ContextOf(checks[i]);
        assert IsCheck(checks[i], ContextOf(checks[i]).value, GetOrNull(checks[i], "app_id"));
      }
    }
  }

  lemma SoundExactly(checks: seq<Json>)
    ensures GoodChecks(checks) <==> SoundChecks(checks)
  {
    hide IsSomeCheck, GoodCheck, NoneRepeats, Unrepeated;
    forall i | 0 <= i < |checks| ensures GoodCheck(checks[i]) <==> IsSomeCheck(checks[i]) {
      GoodExactly(checks[i]);
    }
    if forall i :: 0 <= i < |checks| ==> GoodCheck(checks[i]) {
      UnrepeatedExactly(checks);
    }
  }

  lemma {:induction false} BindingSource(checks: seq<Json>, context: string)
    requires context in Bindings(checks)
    ensures exists check <- checks ::
      ContextOf(check) == Some(context) && GetOrNull(check, "app_id") == Bindings(checks)[context]
  {
    hide ContextOf, GetOrNull;
    var init, last := checks[..|checks| - 1], checks[|checks| - 1];
    assert last in checks;
    if ContextOf(last) != Some(context) {
      BindingSource(init, context);
      var check :| check in init && ContextOf(check) == Some(context)
        && GetOrNull(check, "app_id") == Bindings(init)[context];
      assert check in checks;
    }
  }

  lemma {:induction false} BindingOfEntry(entries: seq<Json>, e: Json, context: string)
    requires NoneRepeats(entries) && e in entries && ContextOf(e) == Some(context)
    ensures context in Bindings(entries) && Bindings(entries)[context] == GetOrNull(e, "app_id")
  {
    hide ContextOf, GetOrNull;
    var n := |entries| - 1;
    var i :| 0 <= i < |entries| && entries[i] == e;
    if i < n {
      assert ContextOf(entries[i]) != ContextOf(entries[n]);
      assert NoneRepeats(entries[..n]);
      assert entries[..n][i] == e;
      BindingOfEntry(entries[..n], e, context);
    }
  }

  lemma BindingExactly(checks: seq<Json>, context: string, app: Json)
    requires GoodChecks(checks)
    ensures BindsTo(checks, context, app) <==> context in Bindings(checks) && Bindings(checks)[context] == app
  {
    hide IsCheck, GoodCheck, ContextOf, GetOrNull, Bindings, NoneRepeats;
    if i :| 0 <= i < |checks| && IsCheck(checks[i], context, app) {
      CheckExactly(checks[i], context, app);
      BindingOfEntry(checks, checks[i], context);
    }
    if context in Bindings(checks) && Bindings(checks)[context] == app {
      BindingSource(checks, context);
      var check :| check in checks && ContextOf(check) == Some(context)
        && GetOrNull(check, "app_id") == Bindings(checks)[context];
      var i :| 0 <= i < |checks| && checks[i] == check;
      CheckExactly(checks[i], context, app);
    }
  }

  lemma BindingsExactly(xs: seq<Json>, ys: seq<Json>)
    requires GoodChecks(xs) && GoodChecks(ys)
    ensures Bindings(xs) == Bindings(ys) <==> SameBindings(xs, ys)
  {
    hide BindsTo, Bindings, GoodChecks;
    forall context, app
      ensures BindsTo(xs, context, app) <==> context in Bindings(xs) && Bindings(xs)[context] == app
      ensures BindsTo(ys, context, app) <==> context in Bindings(ys) && Bindings(ys)[context] == app
    {
      BindingExactly(xs, context, app);
      BindingExactly(ys, context, app);
    }
    if SameBindings(xs, ys) {
      forall context | context in Bindings(xs)
        ensures context in Bindings(ys) && Bindings(ys)[context] == Bindings(xs)[context]
      {
        assert BindsTo(xs, context, Bindings(xs)[context]);
      }
      forall context | context in Bindings(ys) ensures context in Bindings(xs) {
        assert BindsTo(ys, context, Bindings(ys)[context]);
      }
    }
  }

  /** Live checks agree with a validated, non-empty declaration exactly when they are a sound list that binds alike. */
  lemma LiveChecksExactly(live: Json, declared: seq<Json>)
    requires GoodChecks(declared) && declared != []
    ensures CompareChecks(live, declared) == []
      <==> live.Arr? && SoundChecks(live.items) && SameBindings(live.items, declared)
  {
    hide CompareChecks, GoodChecks, SoundChecks, SameBindings, Bindings, GoodCheck;
    RequiredChecksExact(live, declared);
    SomethingBound(declared);
    if live.Arr? {
      SoundExactly(live.items);
      if GoodChecks(live.items) {
        BindingsExactly(live.items, declared);
      }
      assert LiveEntries(live) == Some(live.items);
    } else if LiveEntries(live).Some? && GoodChecks(LiveEntries(live).value) {
      TextsAreNoChecks(live);
    }
  }

  lemma SomethingBound(declared: seq<Json>)
    requires GoodChecks(declared) && declared != []
    ensures Bindings(declared) != map[]
  {
    hide ContextOf;
    var last := declared[|declared| - 1];
    assert GoodCheck(declared[|declared| - 1]);
    assert ContextOf(last).value in Bindings(declared);
  }

  lemma TextsAreNoChecks(live: Json)
    requires !live.Arr? && LiveEntries(live).Some? && GoodChecks(LiveEntries(live).value)
    ensures LiveEntries(live).value == [] && Bindings([]) == map[]
  {
    var entries := LiveEntries(live).value;
    NoTextIsGood(entries);
  }

  lemma NoTextIsGood(entries: seq<Json>)
    requires forall i :: 0 <= i < |entries| ==> entries[i].Str?
    ensures GoodChecks(entries) <==> entries == []
  {
    assert entries != [] ==> !GoodCheck(entries[0]);
  }
}
