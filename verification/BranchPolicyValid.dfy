/**
 Which policies are accepted, told from the document alone: what every block must hold, what every
 exception must be true of, and what must have an exception.
 */
module BranchPolicyValid {
  import opened Wrappers
  import opened Text
  import opened Json
  import opened BranchPolicy
  import opened BranchPolicyLaws
  import opened BranchPolicyGate

  // ----- blocks -----

  /** The member is there, and is no blank text. */
  ghost predicate Stated(v: Json, key: string) {
    v.Obj? && match Lookup(v.members, key)
      case None => false
      case Some(Str(s)) => !AllSpace(s)
      case Some(_) => true
  }

  lemma StatedExactly(v: Json, key: string)
    ensures Stated(v, key) <==> !Unstated(Get(v, key))
  {
    if Get(v, key).Some? && Get(v, key).value.Str? {
      StripAllSpace(Get(v, key).value.s);
    }
    hide Strip, AllSpace;
  }

  ghost predicate HasAll(v: Json, keys: seq<string>) {
    v.Obj? && forall i :: 0 <= i < |keys| ==> Lookup(v.members, keys[i]).Some?
  }

  ghost predicate AllBool(v: Json, keys: seq<string>) {
    forall i :: 0 <= i < |keys| ==>
      (v.Obj? && Lookup(v.members, keys[i]).Some? ==> Lookup(v.members, keys[i]).value.Bool?)
  }

  ghost predicate AllLists(v: Json, keys: seq<string>) {
    forall i :: 0 <= i < |keys| ==>
      (v.Obj? && Lookup(v.members, keys[i]).Some? ==> Lookup(v.members, keys[i]).value.Arr?)
  }

  lemma {:induction false} MissingExactly(v: Json, keys: seq<string>)
    requires keys != [] || v.Obj?
    ensures MissingKeys(v, keys) == [] <==> HasAll(v, keys)
  {
    hide Lookup;
    if keys != [] {
      if v.Obj? {
        MissingExactly(v, keys[1..]);
      }
      assert forall i :: 0 < i < |keys| ==> keys[i] == keys[1..][i - 1];
      assert HasAll(v, keys) <==> v.Obj? && Lookup(v.members, keys[0]).Some? && HasAll(v, keys[1..]);
    }
  }

  lemma {:induction false} MistypedExactly(v: Json, keys: seq<string>)
    ensures MistypedKeys(v, keys) == [] <==> AllBool(v, keys)
  {
    hide Lookup;
    if keys != [] {
      MistypedExactly(v, keys[1..]);
      assert forall i :: 0 < i < |keys| ==> keys[i] == keys[1..][i - 1];
    }
  }

  lemma {:induction false} NotListsExactly(v: Json, keys: seq<string>)
    ensures NotLists(v, keys) == [] <==> AllLists(v, keys)
  {
    hide Lookup;
    if keys != [] {
      NotListsExactly(v, keys[1..]);
      assert forall i :: 0 < i < |keys| ==> keys[i] == keys[1..][i - 1];
    }
  }

  /** The review authority says who leads, what mergeable means and how to escalate. */
  ghost predicate SoundAuthority(policy: Json) {
    var authority := GetOrNull(policy, "review_authority");
    Stated(authority, "review_lead") && Stated(authority, "mergeable_meaning") && Stated(authority, "escalation")
  }

  lemma AuthorityExactly(policy: Json)
    ensures AuthorityIssues(Get(policy, "review_authority")) == [] <==> SoundAuthority(policy)
  {
    var authority := GetOrNull(policy, "review_authority");
    StatedExactly(authority, "review_lead");
    StatedExactly(authority, "mergeable_meaning");
    StatedExactly(authority, "escalation");
    hide Stated, Unstated;
    assert Unstated(None) by { NoneIsUnstated(); }
  }

  lemma NoneIsUnstated()
    ensures Unstated(None)
  {}

  /** A check block: a strictness, a non-empty sound list of checks, and no retired list of contexts. */
  ghost predicate SoundCheckBlock(block: Json) {
    && HasAll(block, ["strict", "checks"]) && AllBool(block, ["strict"])
    && Lookup(block.members, "contexts").None?
    && GetOrNull(block, "checks").Arr? && GetOrNull(block, "checks").items != []
    && SoundChecks(GetOrNull(block, "checks").items)
  }

  lemma CheckBlockExactly(expected: Json)
    requires Get(expected, CHECKS).Some?
    ensures DeclaredCheckIssues(expected) == [] <==> SoundCheckBlock(Get(expected, CHECKS).value)
  {
    var block := Get(expected, CHECKS).value;
    MissingExactly(block, ["strict", "checks"]);
    hide MissingKeys, SoundChecks, Lookup, RequiredCheckIssues;
    assert HasAll(block, ["strict", "checks"]) <==>
      block.Obj? && Lookup(block.members, "strict").Some? && Lookup(block.members, "checks").Some?
    by {
      TwoKeys(block);
    }
    if Get(block, "checks").Some? {
      CheckListExactly(Get(block, "checks").value);
    }
    assert AllBool(block, ["strict"]) <==>
      (Get(block, "strict").Some? ==> Get(block, "strict").value.Bool?) by { OneKey(block); }
    hide HasAll, AllBool;
  }

  lemma TwoKeys(block: Json)
    ensures HasAll(block, ["strict", "checks"]) <==>
      block.Obj? && Lookup(block.members, "strict").Some? && Lookup(block.members, "checks").Some?
  {
    hide Lookup;
    var keys := ["strict", "checks"];
    assert keys[0] == "strict" && keys[1] == "checks";
  }

  lemma OneKey(block: Json)
    ensures AllBool(block, ["strict"]) <==> (Get(block, "strict").Some? ==> Get(block, "strict").value.Bool?)
  {
    hide Lookup;
    var keys := ["strict"];
    assert keys[0] == "strict";
  }

  lemma CheckListExactly(declared: Json)
    ensures RequiredCheckIssues(declared) == [] <==>
      declared.Arr? && declared.items != [] && SoundChecks(declared.items)
  {
    hide RequiredCheckIssues, SoundChecks, GoodChecks;
    DeclaredChecksClean(declared);
    if declared.Arr? {
      SoundExactly(declared.items);
    }
  }

  /** What Python takes for false. */
  ghost predicate IsFalsy(v: Json) {
    || v == Null || v == Bool(false) || v == Str("") || v == Arr([]) || v == Obj([])
    || ((v.Int? || v.Dec?) && NumberOf(v) == Some(0.0))
  }

  lemma FalsyExactly(v: Json)
    ensures IsFalsy(v) <==> !Truthy(v)
  {
    if v.Dec? {
      ZeroExactly(v.d.coefficient, Pow10(if v.d.exponent >= 0 then v.d.exponent else -v.d.exponent));
    }
  }

  lemma ZeroExactly(n: nat, p: int)
    requires p >= 1
    ensures n as real * p as real == 0.0 <==> n == 0
    ensures n as real / p as real == 0.0 <==> n == 0
  {
    if n > 0 {
      assert n as real * p as real > 0.0;
      assert (n as real / p as real) * p as real == n as real;
    }
  }

  /** A review block says whether it is present; if it is, with a literal `true`, it says everything. */
  ghost predicate SoundReviewBlock(block: Json) {
    && block.Obj? && Lookup(block.members, "present").Some?
    && (!IsFalsy(Lookup(block.members, "present").value) ==>
          && HasAll(block, REVIEW_KEYS + [BYPASS]) && AllBool(block, BOOLEAN_REVIEW_KEYS)
          && (GetOrNull(block, COUNT).Int? || GetOrNull(block, COUNT).Null?)
          && HasAll(GetOrNull(block, BYPASS), CATEGORIES) && AllLists(GetOrNull(block, BYPASS), CATEGORIES))
  }

  lemma ReviewBlockExactly(expected: Json)
    requires Get(expected, REVIEWS).Some?
    ensures DeclaredReviewIssues(expected) == [] <==> SoundReviewBlock(Get(expected, REVIEWS).value)
  {
    var block := Get(expected, REVIEWS).value;
    var keys := REVIEW_KEYS + [BYPASS];
    MissingExactly(block, keys);
    MistypedExactly(block, BOOLEAN_REVIEW_KEYS);
    MissingExactly(GetOrNull(block, BYPASS), CATEGORIES);
    NotListsExactly(GetOrNull(block, BYPASS), CATEGORIES);
    hide MissingKeys, MistypedKeys, NotLists, Lookup, Truthy, IsFalsy, AllBool, AllLists;
    if Get(block, "present").Some? {
      FalsyExactly(Get(block, "present").value);
    }
    assert HasAll(block, keys) ==> Get(block, BYPASS).Some? by {
      assert keys[|REVIEW_KEYS|] == BYPASS;
    }
    hide HasAll;
  }

  // ----- exceptions -----

  ghost function CheckList(expected: Json): seq<Json> {
    ItemsOf(Get(GetOrNull(expected, CHECKS), "checks"))
  }

  ghost predicate IsBound(checks: seq<Json>, context: string) {
    exists app :: BindsTo(checks, context, app)
  }

  ghost predicate CategoryLists(expected: Json, category: string) {
    ItemsOf(Get(GetOrNull(GetOrNull(expected, REVIEWS), BYPASS), category)) != []
  }

  /** The settings an exception may name. */
  ghost predicate NamesSetting(field: string) {
    InTopLevel(field) || InChecks(field) || InReviewBlock(field)
  }

  ghost predicate InTopLevel(field: string) {
    exists i :: 0 <= i < |BOOLEAN_KEYS| && field == BOOLEAN_KEYS[i]
  }

  ghost predicate InChecks(field: string) {
    field == CHECKS + "." + "strict" || field == CHECKS + "." + "checks"
  }

  ghost predicate InReviewBlock(field: string) {
    field == REVIEWS + "." + "present" || field == REVIEWS + "." + BYPASS || InReviewKeys(field)
  }

  ghost predicate InReviewKeys(field: string) {
    exists i :: 0 <= i < |REVIEW_KEYS| && field == REVIEWS + "." + REVIEW_KEYS[i]
  }

  /** Where the policy declares a setting. */
  ghost function SettingAt(expected: Json, field: string): Option<Json> {
    if InTopLevel(field) then Get(expected, field)
    else if InChecks(field) then Get(GetOrNull(expected, CHECKS), field[|CHECKS| + 1..])
    else if InReviewBlock(field) then Get(GetOrNull(expected, REVIEWS), field[|REVIEWS| + 1..])
    else None
  }

  /** An exception about a setting is true: it is declared with that value, and a posture with its weak one. */
  ghost predicate SettingHolds(expected: Json, field: string, value: Json) {
    && NamesSetting(field)
    && (REVIEWS + "." <= field && field != REVIEWS + "." + "present" ==> ReviewsMayBePresent(expected))
    && if field == CHECKS + "." + "checks" then
         && GetOrNull(GetOrNull(expected, CHECKS), "checks").Arr?
         && value.Str? && !AllSpace(value.s) && !IsBound(CheckList(expected), value.s)
       else
         && (forall c :: Name(c) == field ==> SameTyped(value, Weak(c)))
         && SettingAt(expected, field).Some? && SameTyped(SettingAt(expected, field).value, value)
  }

  ghost predicate ReviewsMayBePresent(expected: Json) {
    var present := Get(GetOrNull(expected, REVIEWS), "present");
    present.Some? ==> present.value == Bool(true)
  }

  /** What makes an exception true of the declaration. */
  ghost predicate Holds(expected: Json, e: Json) {
    var field, value := FieldText(e), GetOrNull(e, "value");
    if APP_PREFIX <= field then value.Null? && BindsTo(CheckList(expected), field[|APP_PREFIX|..], Null)
    else if BYPASS_PREFIX <= field then
      exists category :: EndsIn(field, category) && CategoryLists(expected, category)
    else SettingHolds(expected, field, value)
  }

  /** The part after the last dot. */
  ghost predicate EndsIn(field: string, category: string) {
    && '.' !in category && |category| < |field|
    && field == field[..|field| - |category|] + category && field[|field| - |category| - 1] == '.'
  }

  lemma {:induction false} BindingOfExactly(checks: seq<Json>, context: string)
    requires GoodChecks(checks)
    ensures BindingOf(checks, context) == Some(Null) <==> BindsTo(checks, context, Null)
    ensures BindingOf(checks, context).Some? <==> IsBound(checks, context)
  {
    hide IsCheck, ContextText, GoodCheck, ContextOf, AllSpace, BindsTo;
    if checks == [] {
      NothingBinds(context);
    } else {
      var init, last := checks[..|checks| - 1], checks[|checks| - 1];
      assert GoodChecks(init) && GoodCheck(last);
      BindingOfExactly(init, context);
      BindsToStep(checks, context);
      LastBinding(last, context);
      if IsCheck(last, context, GetOrNull(last, "app_id")) {
        OnlyBinding(checks, context);
        assert BindsTo(checks, context, GetOrNull(last, "app_id"));
      } else {
        assert BindingOf(checks, context) == BindingOf(init, context);
        assert forall app :: !IsCheck(last, context, app);
        if app :| BindsTo(checks, context, app) {
          assert BindsTo(init, context, app);
        }
        if app :| BindsTo(init, context, app) {
          assert BindsTo(checks, context, app);
        }
      }
    }
  }

  lemma NothingBinds(context: string)
    ensures forall app :: !BindsTo([], context, app)
  {}

  lemma LastBinding(check: Json, context: string)
    requires GoodCheck(check)
    ensures ContextText(check) == Some(context) <==> IsCheck(check, context, GetOrNull(check, "app_id"))
    ensures forall app :: IsCheck(check, context, app) ==> app == GetOrNull(check, "app_id")
  {
    CheckExactly(check, context, GetOrNull(check, "app_id"));
    ContextExactly(check, context);
    forall app | IsCheck(check, context, app) ensures app == GetOrNull(check, "app_id") {
      CheckExactly(check, context, app);
    }
    hide AllSpace;
  }

  lemma BindsToStep(checks: seq<Json>, context: string)
    requires checks != []
    ensures forall app :: BindsTo(checks, context, app) <==>
      BindsTo(checks[..|checks| - 1], context, app) || IsCheck(checks[|checks| - 1], context, app)
  {
    hide IsCheck;
    var init := checks[..|checks| - 1];
    forall app ensures BindsTo(checks, context, app) <==>
      BindsTo(init, context, app) || IsCheck(checks[|checks| - 1], context, app)
    {
      if i :| 0 <= i < |init| && IsCheck(init[i], context, app) {
        assert checks[i] == init[i];
      }
      if i :| 0 <= i < |checks| && IsCheck(checks[i], context, app) {
        assert i < |init| ==> init[i] == checks[i];
      }
    }
  }

  lemma OnlyBinding(checks: seq<Json>, context: string)
    requires GoodChecks(checks) && checks != []
    requires IsCheck(checks[|checks| - 1], context, GetOrNull(checks[|checks| - 1], "app_id"))
    ensures !IsBound(checks[..|checks| - 1], context)
  {
    hide IsCheck, GoodCheck, ContextOf;
    var n := |checks| - 1;
    SoundExactly(checks);
    assert forall i :: 0 <= i < n ==> checks[..n][i] == checks[i];
  }

  lemma EndsInExactly(field: string, category: string)
    requires '.' in field
    ensures EndsIn(field, category) <==> AfterLastDot(field) == category
  {
    LastDot(field);
    hide AfterLastDot;
    if EndsIn(field, category) {
      LastPart(field[..|field| - |category|], category);
    }
  }

  lemma {:induction false} LastDot(field: string)
    requires '.' in field
    ensures EndsIn(field, AfterLastDot(field))
  {
    var n := |field| - 1;
    if field[n] == '.' {
      assert EndsIn(field, "");
    } else {
      hide EndsIn;
      assert field == field[..n] + [field[n]];
      LastDot(field[..n]);
      LongerEnding(field, AfterLastDot(field[..n]));
    }
  }

  lemma LongerEnding(field: string, part: string)
    requires field != "" && field[|field| - 1] != '.' && EndsIn(field[..|field| - 1], part)
    ensures EndsIn(field, part + [field[|field| - 1]])
  {
    var n := |field| - 1;
    assert field == field[..n] + [field[n]];
    assert field[..n][..n - |part|] == field[..n - |part|];
    Assoc(field[..n - |part|], part, [field[n]]);
  }

  lemma SettingNamesExactly(field: string)
    requires !(BYPASS_PREFIX <= field)
    ensures Audited(field) <==> NamesSetting(field)
  {
    TopLevelExactly(field);
    ReviewKeysExactly(field);
    hide InTopLevel, InReviewKeys;
    assert forall category <- CATEGORIES :: BYPASS_PREFIX <= BYPASS_PREFIX + category;
  }

  lemma TopLevelExactly(field: string)
    ensures field in BOOLEAN_KEYS <==> InTopLevel(field)
  {}

  lemma ReviewKeysExactly(field: string)
    ensures InReviewKeys(field) <==> exists key <- REVIEW_KEYS :: field == REVIEWS + "." + key
  {
    if key :| key in REVIEW_KEYS && field == REVIEWS + "." + key {
      var i :| 0 <= i < |REVIEW_KEYS| && REVIEW_KEYS[i] == key;
    }
  }

  lemma TopLevelIsPlain(field: string)
    requires InTopLevel(field)
    ensures '.' !in field
  {
    var i :| 0 <= i < |BOOLEAN_KEYS| && field == BOOLEAN_KEYS[i];
    if i < 4 {
      TopLevelIsPlainFirst(i);
    } else if i < 8 {
      TopLevelIsPlainThen(i);
    } else {
      TopLevelIsPlainLast(i);
    }
  }

  lemma TopLevelIsPlainFirst(i: nat)
    requires i < 4
    ensures '.' !in BOOLEAN_KEYS[i]
  {
    forall k | 0 <= k < |BOOLEAN_KEYS[i]| ensures BOOLEAN_KEYS[i][k] != '.' {}
  }

  lemma TopLevelIsPlainThen(i: nat)
    requires 4 <= i < 8
    ensures '.' !in BOOLEAN_KEYS[i]
  {
    forall k | 0 <= k < |BOOLEAN_KEYS[i]| ensures BOOLEAN_KEYS[i][k] != '.' {}
  }

  lemma TopLevelIsPlainLast(i: nat)
    requires 8 <= i < 11
    ensures '.' !in BOOLEAN_KEYS[i]
  {
    forall k | 0 <= k < |BOOLEAN_KEYS[i]| ensures BOOLEAN_KEYS[i][k] != '.' {}
  }

  lemma ReviewKeyIsPlain(i: nat)
    requires i < |REVIEW_KEYS|
    ensures '.' !in REVIEW_KEYS[i]
  {
    forall k | 0 <= k < |REVIEW_KEYS[i]| ensures REVIEW_KEYS[i][k] != '.' {}
  }

  /** A nested setting is looked up in its block. */
  lemma NestedSetting(expected: Json, block: string, key: string)
    requires '.' !in block && '.' !in key
    ensures ResolveExpected(expected, block + "." + key)
      == Get(GetOrNull(expected, block), (block + "." + key)[|block| + 1..])
  {
    ResolveTwo(expected, block, key);
    hide ResolveExpected, Get, GetOrNull;
    assert (block + "." + key)[|block| + 1..] == key;
  }

  lemma SettingIsResolved(expected: Json, field: string)
    requires NamesSetting(field)
    ensures ResolveExpected(expected, field) == SettingAt(expected, field)
  {
    hide ResolveExpected, Get, GetOrNull, InTopLevel;
    NoDotsInBlocks();
    if InTopLevel(field) {
      TopLevelIsPlain(field);
      ResolveOne(expected, field);
    } else if InChecks(field) {
      NoDotsInBypass();
      NoDotsInKey(Strict);
      NestedSetting(expected, CHECKS, if field == CHECKS + "." + "strict" then "strict" else "checks");
    } else {
      ReviewIsNoCheck(field);
      NestedReview(expected, field);
    }
  }

  lemma ReviewIsNoCheck(field: string)
    requires InReviewBlock(field)
    ensures !InChecks(field) && REVIEWS + "." <= field
  {
    hide InReviewKeys;
    assert REVIEWS + "." <= field by {
      if InReviewKeys(field) {
        ReviewKeyPrefix(field);
      }
    }
    assert field[9] == REVIEWS[9];
    assert (CHECKS + "." + "strict")[9] == CHECKS[9] && (CHECKS + "." + "checks")[9] == CHECKS[9];
  }

  lemma ReviewKeyPrefix(field: string)
    requires InReviewKeys(field)
    ensures REVIEWS + "." <= field
  {
    var i :| 0 <= i < |REVIEW_KEYS| && field == REVIEWS + "." + REVIEW_KEYS[i];
  }

  lemma NestedReview(expected: Json, field: string)
    requires InReviewBlock(field)
    ensures ResolveExpected(expected, field) == Get(GetOrNull(expected, REVIEWS), field[|REVIEWS| + 1..])
  {
    hide ResolveExpected, Get, GetOrNull;
    NoDotsInBlocks();
    NoDotsInBypass();
    NoDotsInKey(Present);
    if field == REVIEWS + "." + "present" {
      NestedSetting(expected, REVIEWS, "present");
    } else if field == REVIEWS + "." + BYPASS {
      NestedSetting(expected, REVIEWS, BYPASS);
    } else {
      var i :| 0 <= i < |REVIEW_KEYS| && field == REVIEWS + "." + REVIEW_KEYS[i];
      ReviewKeyIsPlain(i);
      NestedSetting(expected, REVIEWS, REVIEW_KEYS[i]);
    }
  }

  lemma WeakValueExactly(field: string, value: Json)
    ensures (ControlNamed(field).Some? ==> SameTyped(value, Weak(ControlNamed(field).value)))
      <==> forall c :: Name(c) == field ==> SameTyped(value, Weak(c))
  {
    hide SameTyped, Weak, Name, ControlNamed;
    forall c | Name(c) == field ensures ControlNamed(field) == Some(c) {
      NamedControl(c);
    }
    assert ControlNamed(field).Some? ==> Name(ControlNamed(field).value) == field by { NamedBack(field); }
  }

  lemma NamedBack(field: string)
    ensures ControlNamed(field).Some? ==> Name(ControlNamed(field).value) == field
  {
    hide Name, FirstNamed;
  }

  /** An exception is accepted exactly when what it says is declared. */
  lemma BindsExactly(expected: Json, e: Json)
    requires GoodChecks(CheckList(expected))
    ensures Binds(expected, e) <==> Holds(expected, e)
  {
    var field, value := FieldText(e), GetOrNull(e, "value");
    hide FieldText, GetOrNull, ResolveExpected, Get, BindingOf, BindsTo, GoodChecks, AfterLastDot, EndsIn, SettingHolds,
      Audited, SameTyped, ControlNamed, Blank, Populated, CategoryLists, IsNestedReviewField, PresentDeclaredNotTrue,
      DeclaredChecks, DeclaredBypass, CheckList;
    if APP_PREFIX <= field {
      ChecksDeclared(expected);
      BindingOfExactly(CheckList(expected), field[|APP_PREFIX|..]);
    } else if BYPASS_PREFIX <= field {
      BypassHasDot(field);
      CategoryExactly(expected, field);
    } else {
      SettingExactly(expected, field, value);
    }
  }

  lemma ChecksDeclared(expected: Json)
    ensures DeclaredChecks(expected) == CheckList(expected)
  {
    hide ResolveExpected, Get, GetOrNull, ItemsOf;
    ResolveBlocks(expected);
  }

  lemma BypassHasDot(field: string)
    requires BYPASS_PREFIX <= field
    ensures '.' in field
  {
    var k := |REVIEWS|;
    assert k < |BYPASS_PREFIX| && BYPASS_PREFIX[k] == '.';
    assert field[k] == BYPASS_PREFIX[k];
  }

  lemma CategoryExactly(expected: Json, field: string)
    requires '.' in field
    ensures Populated(DeclaredBypass(expected), AfterLastDot(field))
      <==> exists category :: EndsIn(field, category) && CategoryLists(expected, category)
  {
    ResolveBlocks(expected);
    hide ResolveExpected, AfterLastDot, EndsIn, DeclaredBypass;
    forall category ensures EndsIn(field, category) <==> AfterLastDot(field) == category {
      EndsInExactly(field, category);
    }
    assert EndsIn(field, AfterLastDot(field));
  }

  ghost predicate SettingBinds(expected: Json, field: string, value: Json) {
    && Audited(field)
    && !(IsNestedReviewField(field) && PresentDeclaredNotTrue(expected))
    && if field == CHECK_LIST then
         && ResolveExpected(expected, field).Some? && ResolveExpected(expected, field).value.Arr?
         && value.Str? && !Blank(value.s)
         && BindingOf(DeclaredChecks(expected), value.s).None?
       else
         && (ControlNamed(field).Some? ==> SameTyped(value, Weak(ControlNamed(field).value)))
         && ResolveExpected(expected, field).Some?
         && SameTyped(ResolveExpected(expected, field).value, value)
  }

  lemma SettingExactly(expected: Json, field: string, value: Json)
    requires GoodChecks(CheckList(expected)) && !(BYPASS_PREFIX <= field)
    ensures SettingBinds(expected, field, value) <==> SettingHolds(expected, field, value)
  {
    SettingNamesExactly(field);
    WeakValueExactly(field, value);
    ResolveBlocks(expected);
    hide ResolveExpected, BindingOf, BindsTo, GoodChecks, Audited, SameTyped, Weak, Name, ControlNamed,
      NamesSetting, SettingAt, Blank, AllSpace;
    if NamesSetting(field) {
      SettingIsResolved(expected, field);
      PresentExactly(expected);
      if value.Str? {
        BlankExactly(value.s);
        BindingOfExactly(CheckList(expected), value.s);
      }
      if field == CHECK_LIST {
        ListSetting(expected);
      }
    }
  }

  lemma BlankExactly(s: string)
    ensures Blank(s) <==> AllSpace(s)
  {
    StripAllSpace(s);
  }

  lemma PresentExactly(expected: Json)
    ensures PresentDeclaredNotTrue(expected) <==> !ReviewsMayBePresent(expected)
  {
    NoDotsInBlocks();
    NoDotsInKey(Present);
    hide ResolveExpected, Get, GetOrNull;
    ResolveTwo(expected, REVIEWS, "present");
  }

  lemma ListSetting(expected: Json)
    ensures ResolveExpected(expected, CHECK_LIST) == Get(GetOrNull(expected, CHECKS), "checks")
  {
    NoDotsInBlocks();
    NoDotsInBypass();
    hide ResolveExpected, Get, GetOrNull;
    ResolveTwo(expected, CHECKS, "checks");
  }

  /** Every exception is complete and true. */
  ghost predicate AllHold(expected: Json, exceptions: seq<Json>) {
    forall i :: 0 <= i < |exceptions| ==> HasAll(exceptions[i], EXCEPTION_KEYS) && Holds(expected, exceptions[i])
  }

  lemma CompleteExactly(e: Json)
    ensures Complete(e) <==> HasAll(e, EXCEPTION_KEYS)
  {
    hide Lookup;
    if Complete(e) {
      forall i | 0 <= i < |EXCEPTION_KEYS| ensures Lookup(e.members, EXCEPTION_KEYS[i]).Some? {
        assert EXCEPTION_KEYS[i] in EXCEPTION_KEYS;
      }
    }
  }

  lemma {:induction false} ExceptionsExactly(expected: Json, exceptions: seq<Json>)
    requires GoodChecks(CheckList(expected))
    ensures ExceptionIssues(expected, exceptions) == [] <==> AllHold(expected, exceptions)
  {
    hide GoodChecks, CheckList, Complete, HasAll, Holds, Binds, FieldText;
    if exceptions != [] {
      CompleteExactly(exceptions[0]);
      BindsExactly(expected, exceptions[0]);
      ExceptionsExactly(expected, exceptions[1..]);
      assert forall i :: 0 < i < |exceptions| ==> exceptions[i] == exceptions[1..][i - 1];
      assert forall i :: 0 <= i < |exceptions| - 1 ==> exceptions[1..][i] == exceptions[i + 1];
    }
  }

  // ----- what must have an exception -----

  ghost predicate IsNamed(exceptions: seq<Json>, field: string) {
    exists i :: 0 <= i < |exceptions|
      && exceptions[i].Obj? && Lookup(exceptions[i].members, "field") == Some(Str(field))
  }

  lemma NamedExactly(exceptions: seq<Json>, field: string)
    requires field != ""
    ensures field in Documented(exceptions) <==> IsNamed(exceptions, field)
  {
    hide Lookup;
    if field in Documented(exceptions) {
      var e :| e in exceptions && e.Obj? && FieldText(e) == field;
    }
    if i :| 0 <= i < |exceptions| && exceptions[i].Obj? && Lookup(exceptions[i].members, "field") == Some(Str(field)) {
      assert exceptions[i] in exceptions && FieldText(exceptions[i]) == field;
    }
  }

  /** Nothing weak is declared without an exception that names it. */
  ghost predicate AllNamed(expected: Json, exceptions: seq<Json>) {
    && (forall context :: BindsTo(CheckList(expected), context, Null) ==> IsNamed(exceptions, APP_PREFIX + context))
    && (forall category :: category in CATEGORIES && CategoryLists(expected, category)
          ==> IsNamed(exceptions, BYPASS_PREFIX + category))
    && (forall c :: IsWeak(expected, c) ==> IsNamed(exceptions, Name(c)))
  }

  ghost predicate IsWeak(expected: Json, c: Control) {
    Declared(expected, c).Some? && SameTyped(Declared(expected, c).value, Weak(c))
  }

  lemma {:induction false} UnpinnedExactly(checks: seq<Json>, documented: set<string>)
    requires forall i :: 0 <= i < |checks| ==> GoodCheck(checks[i])
    ensures UnpinnedIssues(checks, documented) == []
      <==> forall context :: BindsTo(checks, context, Null) ==> APP_PREFIX + context in documented
  {
    hide IsCheck, GoodCheck, ContextText;
    if checks != [] {
      UnpinnedExactly(checks[1..], documented);
      FirstUnpinned(checks[0]);
      forall context ensures
        BindsTo(checks, context, Null) <==> IsCheck(checks[0], context, Null) || BindsTo(checks[1..], context, Null)
      {
        BindsToFirst(checks, context);
      }
    }
  }

  lemma FirstUnpinned(check: Json)
    requires GoodCheck(check)
    ensures ContextText(check).Some?
    ensures forall context ::
      (IsCheck(check, context, Null) <==> ContextText(check).value == context && Get(check, "app_id") == Some(Null))
  {
    ContextExactly(check, ContextText(check).value);
    hide AllSpace;
  }

  lemma BindsToFirst(checks: seq<Json>, context: string)
    requires checks != []
    ensures BindsTo(checks, context, Null)
      <==> IsCheck(checks[0], context, Null) || BindsTo(checks[1..], context, Null)
  {
    hide IsCheck;
    var rest := checks[1..];
    if i :| 0 <= i < |rest| && IsCheck(rest[i], context, Null) {
      assert checks[i + 1] == rest[i];
    }
    if i :| 0 <= i < |checks| && IsCheck(checks[i], context, Null) {
      assert i > 0 ==> rest[i - 1] == checks[i];
    }
  }

  lemma {:induction false} BypassExactly(expected: Json, documented: set<string>, categories: seq<string>)
    ensures BypassIssues(DeclaredBypass(expected), documented, categories) == []
      <==> forall category ::
        (category in categories && CategoryLists(expected, category) ==> BYPASS_PREFIX + category in documented)
  {
    hide Populated, CategoryLists, DeclaredBypass;
    if categories != [] {
      ListsExactly(expected, categories[0]);
      BypassExactly(expected, documented, categories[1..]);
      assert categories == [categories[0]] + categories[1..];
    }
  }

  lemma ListsExactly(expected: Json, category: string)
    ensures Populated(DeclaredBypass(expected), category) <==> CategoryLists(expected, category)
  {
    hide ResolveExpected;
    ResolveBlocks(expected);
  }

  lemma {:induction false} WeakExactly(expected: Json, documented: set<string>, controls: seq<Control>)
    ensures WeakIssues(expected, documented, controls) == []
      <==> forall i :: 0 <= i < |controls| ==> (IsWeak(expected, controls[i]) ==> Name(controls[i]) in documented)
  {
    if controls != [] {
      ResolveControl(expected, controls[0]);
      hide Name, ResolveExpected, SameTyped, Weak, Declared;
      WeakExactly(expected, documented, controls[1..]);
      assert forall i :: 0 < i < |controls| ==> controls[i] == controls[1..][i - 1];
      assert forall i :: 0 <= i < |controls| - 1 ==> controls[1..][i] == controls[i + 1];
    }
  }

  lemma UndocumentedExactly(expected: Json, exceptions: seq<Json>)
    requires GoodChecks(CheckList(expected))
    ensures UndocumentedIssues(expected, exceptions) == [] <==> AllNamed(expected, exceptions)
  {
    var documented := Documented(exceptions);
    hide GoodCheck, CheckList, DeclaredChecks, DeclaredBypass, Documented, UnpinnedIssues, BypassIssues, WeakIssues,
      IsNamed, IsWeak, CategoryLists, BindsTo, Name, NoneRepeats;
    ChecksDeclared(expected);
    UnpinnedExactly(CheckList(expected), documented);
    BypassExactly(expected, documented, CATEGORIES);
    WeakExactly(expected, documented, CONTROLS);
    forall context ensures APP_PREFIX + context in documented <==> IsNamed(exceptions, APP_PREFIX + context) {
      NamedExactly(exceptions, APP_PREFIX + context);
    }
    forall category ensures BYPASS_PREFIX + category in documented <==> IsNamed(exceptions, BYPASS_PREFIX + category) {
      NamedExactly(exceptions, BYPASS_PREFIX + category);
    }
    forall c
      ensures Name(c) in documented <==> IsNamed(exceptions, Name(c))
      ensures exists i :: 0 <= i < |CONTROLS| && CONTROLS[i] == c
    {
      NameIsSomething(c);
      NamedExactly(exceptions, Name(c));
    }
    assert WeakIssues(expected, documented, CONTROLS) == []
      <==> forall c :: IsWeak(expected, c) ==> IsNamed(exceptions, Name(c));
    assert UnpinnedIssues(DeclaredChecks(expected), documented) == []
      <==> forall context :: BindsTo(CheckList(expected), context, Null) ==> IsNamed(exceptions, APP_PREFIX + context);
  }

  lemma NameIsSomething(c: Control)
    ensures Name(c) != ""
    ensures exists i :: 0 <= i < |CONTROLS| && CONTROLS[i] == c
  {
    assert c in CONTROLS;
  }

  // ----- the whole document -----

  /** Both blocks and every boolean setting are declared soundly. */
  ghost predicate SoundDeclaration(expected: Json) {
    && HasAll(expected, BOOLEAN_KEYS + [CHECKS, REVIEWS]) && AllBool(expected, BOOLEAN_KEYS)
    && SoundCheckBlock(GetOrNull(expected, CHECKS))
    && SoundReviewBlock(GetOrNull(expected, REVIEWS))
  }

  /** The exceptions are complete and true, and leave nothing weak unnamed. */
  ghost predicate SoundExceptions(expected: Json, listed: Json) {
    var exceptions := if listed.Arr? then listed.items else [];
    && (listed == Obj([]) || listed == Str("") || listed.Arr?)
    && AllHold(expected, exceptions)
    && AllNamed(expected, exceptions)
  }

  ghost predicate SoundPolicy(policy: Json) {
    && Stated(policy, "repository")
    && HasAll(policy, ["repository", "protected_branch", "expected", "documented_exceptions"])
    && SoundAuthority(policy)
    && SoundDeclaration(GetOrNull(policy, "expected"))
    && SoundExceptions(GetOrNull(policy, "expected"), GetOrNull(policy, "documented_exceptions"))
  }

  lemma DeclarationExactly(expected: Json)
    requires expected.Obj?
    ensures (&& MissingKeys(expected, BOOLEAN_KEYS + [CHECKS, REVIEWS]) == []
             && DeclaredCheckIssues(expected) == [] && MistypedKeys(expected, BOOLEAN_KEYS) == []
             && DeclaredReviewIssues(expected) == [])
      <==> SoundDeclaration(expected)
  {
    var keys := BOOLEAN_KEYS + [CHECKS, REVIEWS];
    hide MissingKeys, MistypedKeys, DeclaredCheckIssues, DeclaredReviewIssues, SoundCheckBlock, SoundReviewBlock,
      AllBool, Lookup;
    MissingExactly(expected, keys);
    MistypedExactly(expected, BOOLEAN_KEYS);
    if HasAll(expected, keys) {
      assert keys[|BOOLEAN_KEYS|] == CHECKS && keys[|BOOLEAN_KEYS| + 1] == REVIEWS;
      CheckBlockExactly(expected);
      ReviewBlockExactly(expected);
    }
  }

  lemma DeclaredAreGood(expected: Json)
    requires SoundDeclaration(expected)
    ensures GoodChecks(CheckList(expected))
  {
    hide HasAll, AllBool, SoundReviewBlock, SoundChecks, GoodChecks;
    SoundExactly(CheckList(expected));
  }

  lemma TextsAreIncomplete(expected: Json, exceptions: seq<Json>)
    requires exceptions != [] && exceptions[0].Str?
    ensures ExceptionIssues(expected, exceptions) != []
  {
    hide Binds;
  }

  lemma ListedExactly(policy: Json, expected: Json)
    requires policy.Obj? && Lookup(policy.members, "documented_exceptions").Some? && GoodChecks(CheckList(expected))
    ensures (&& ExceptionsOf(policy).Some? && ExceptionIssues(expected, ExceptionsOf(policy).value) == []
             && UndocumentedIssues(expected, ExceptionsOf(policy).value) == [])
      <==> SoundExceptions(expected, GetOrNull(policy, "documented_exceptions"))
  {
    hide GoodChecks, CheckList, ExceptionIssues, UndocumentedIssues, AllHold, AllNamed, Lookup;
    if ExceptionsOf(policy).Some? {
      var exceptions := ExceptionsOf(policy).value;
      ExceptionsExactly(expected, exceptions);
      UndocumentedExactly(expected, exceptions);
      if exceptions != [] && exceptions[0].Str? {
        TextsAreIncomplete(expected, exceptions);
        FirstIsNoObject(expected, exceptions);
      }
    }
  }

  lemma FirstIsNoObject(expected: Json, exceptions: seq<Json>)
    requires exceptions != [] && exceptions[0].Str?
    ensures !AllHold(expected, exceptions)
  {
    hide Holds;
  }

  /** A policy passes the offline validation exactly when it is sound. */
  lemma ValidExactly(policy: Json)
    ensures Validate(policy) == [] <==> SoundPolicy(policy)
  {
    var keys := ["repository", "protected_branch", "expected", "documented_exceptions"];
    hide MissingKeys, MistypedKeys, DeclaredCheckIssues, DeclaredReviewIssues, ExceptionIssues, UndocumentedIssues,
      AuthorityIssues, ExceptionsOf, Unstated, HasAll, Stated, SoundAuthority, SoundExceptions, SoundDeclaration;
    StatedExactly(policy, "repository");
    MissingExactly(policy, keys);
    AuthorityExactly(policy);
    if MissingKeys(policy, keys) == [] && policy.Obj? {
      assert keys[2] == "expected" && keys[3] == "documented_exceptions";
      assert Lookup(policy.members, "expected").Some? && Lookup(policy.members, "documented_exceptions").Some? by {
        KeyIsThere(policy, keys, 2);
        KeyIsThere(policy, keys, 3);
      }
      var expected := ExpectedOf(policy);
      assert expected == GetOrNull(policy, "expected");
      if expected.Obj? {
        DeclarationExactly(expected);
        if SoundDeclaration(expected) {
          DeclaredAreGood(expected);
          ListedExactly(policy, expected);
        }
      } else {
        NoDeclaration(expected);
      }
    } else if !policy.Obj? {
      NothingStated(policy);
    }
  }

  lemma NothingStated(policy: Json)
    requires !policy.Obj?
    ensures !Stated(policy, "repository")
  {}

  lemma NoDeclaration(expected: Json)
    requires !expected.Obj?
    ensures !SoundDeclaration(expected)
  {}

  lemma KeyIsThere(v: Json, keys: seq<string>, i: nat)
    requires HasAll(v, keys) && i < |keys|
    ensures Lookup(v.members, keys[i]).Some?
  {}
}
