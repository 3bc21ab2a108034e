/**
 The end-to-end claim of the branch-protection gate: no live weakness without a documented
 exception, and the one declaration that escapes it.
 */
module BranchPolicyGate {
  import opened Wrappers
  import opened Text
  import opened Json
  import opened BranchPolicy
  import opened BranchPolicyLaws

  // ----- field names -----

  predicate InReviews(c: Control) {
    c.Present? || c.DismissStale? || c.ApprovalCount?
  }

  /** A control's key in its own block of the document. */
  function Key(c: Control): string {
    match c
    case Strict => "strict"
    case Present => "present"
    case DismissStale => "dismiss_stale_reviews"
    case ApprovalCount => COUNT
    case _ => Name(c)
  }

  function Declared(expected: Json, c: Control): Option<Json> {
    if c.Strict? then Get(GetOrNull(expected, CHECKS), "strict")
    else if InReviews(c) then Get(GetOrNull(expected, REVIEWS), Key(c))
    else Get(expected, Key(c))
  }

  /** Two texts that differ at one place: neither is a prefix of the other when both reach that far. */
  lemma NotPrefix(p: string, s: string, k: nat)
    requires k < |p| && (k < |s| ==> s[k] != p[k])
    ensures !(p <= s)
  {}

  /** No control's name reads as a per-context or a bypass exception. */
  lemma NameIsPlain(c: Control)
    ensures !(APP_PREFIX <= Name(c)) && !(BYPASS_PREFIX <= Name(c)) && Name(c) != CHECK_LIST
  {
    assert |CHECKS| == 22 && |REVIEWS| == 29;
    assert CHECK_LIST[9] == 's' && CHECK_LIST[23] == 'c' && BYPASS_PREFIX[9] == 'p' && BYPASS_PREFIX[30] == 'b';
    var early := if c.LinearHistory? || c.ConversationResolution? then 9 else 0;
    NotPrefix(CHECK_LIST, Name(c), if c.Strict? then 23 else if InReviews(c) then 9 else early);
    NotPrefix(BYPASS_PREFIX, Name(c), if InReviews(c) then 30 else if c.Strict? then 9 else early);
  }

  lemma NamesDiffer(c: Control, d: Control)
    requires c != d
    ensures Name(c) != Name(d)
  {
    assert |Name(c)| != |Name(d)|;
  }

  lemma NamedControl(c: Control)
    ensures ControlNamed(Name(c)) == Some(c)
  {
    assert c in CONTROLS;
    var r := FirstNamed(Name(c), CONTROLS);
    if r != Some(c) && r.Some? {
      NamesDiffer(r.value, c);
    }
  }

  lemma ResolveFirst(node: Json, part: string, rest: seq<string>)
    ensures Resolve(node, [part] + rest) ==
      match Get(node, part) { case None => None case Some(v) => Resolve(v, rest) }
    ensures Resolve(node, []) == Some(node)
  {
    assert ([part] + rest)[1..] == rest;
  }

  /** A field of two parts is resolved step by step. */
  lemma ResolveTwo(expected: Json, a: string, b: string)
    requires '.' !in a && '.' !in b
    ensures ResolveExpected(expected, a + "." + b) == Get(GetOrNull(expected, a), b)
  {
    SplitHead(a, b, '.');
    SplitSingle(b, '.');
    hide Split, Resolve;
    ResolveFirst(expected, a, [b]);
    if Get(expected, a).Some? {
      ResolveFirst(Get(expected, a).value, b, []);
      assert [b] + [] == [b];
      if Get(Get(expected, a).value, b).Some? {
        ResolveFirst(Get(Get(expected, a).value, b).value, b, []);
      }
    }
  }

  lemma ResolveOne(expected: Json, a: string)
    requires '.' !in a
    ensures ResolveExpected(expected, a) == Get(expected, a)
  {
    SplitSingle(a, '.');
    hide Split, Resolve;
    ResolveFirst(expected, a, []);
    assert [a] + [] == [a];
    if Get(expected, a).Some? {
      ResolveFirst(Get(expected, a).value, a, []);
    }
  }

  lemma NoDotsInBlocks()
    ensures '.' !in CHECKS && '.' !in REVIEWS
  {
    forall i | 0 <= i < 22 ensures CHECKS[i] != '.' {}
    forall i | 0 <= i < 29 ensures REVIEWS[i] != '.' {}
  }

  lemma NoDotsInBypass()
    ensures '.' !in BYPASS && '.' !in "checks"
  {
    forall i | 0 <= i < |BYPASS| ensures BYPASS[i] != '.' {}
  }

  lemma NoDotsInKey(c: Control)
    ensures '.' !in Key(c)
  {
    if c.EnforceAdmins? || c.LinearHistory? || c.ForcePushes? {
      NoDotsInFirst(c);
    } else if c.Deletions? || c.ConversationResolution? || c.Strict? {
      NoDotsInSecond(c);
    } else {
      NoDotsInThird(c);
    }
  }

  lemma NoDotsInFirst(c: Control)
    requires c.EnforceAdmins? || c.LinearHistory? || c.ForcePushes?
    ensures '.' !in Key(c)
  {
    forall i | 0 <= i < |Key(c)| ensures Key(c)[i] != '.' {}
  }

  lemma NoDotsInSecond(c: Control)
    requires c.Deletions? || c.ConversationResolution? || c.Strict?
    ensures '.' !in Key(c)
  {
    forall i | 0 <= i < |Key(c)| ensures Key(c)[i] != '.' {}
  }

  lemma NoDotsInThird(c: Control)
    requires InReviews(c)
    ensures '.' !in Key(c)
  {
    forall i | 0 <= i < |Key(c)| ensures Key(c)[i] != '.' {}
  }

  lemma ResolveControl(expected: Json, c: Control)
    ensures ResolveExpected(expected, Name(c)) == Declared(expected, c)
  {
    NoDotsInBlocks();
    NoDotsInKey(c);
    hide Split, Resolve, ResolveExpected, Get, GetOrNull;
    if c.Strict? {
      ResolveTwo(expected, CHECKS, "strict");
    } else if InReviews(c) {
      ResolveTwo(expected, REVIEWS, Key(c));
    } else {
      ResolveOne(expected, Key(c));
    }
  }

  lemma ResolveBlocks(expected: Json)
    ensures DeclaredChecks(expected) == ItemsOf(Get(GetOrNull(expected, CHECKS), "checks"))
    ensures DeclaredBypass(expected) == Get(GetOrNull(expected, REVIEWS), BYPASS)
  {
    NoDotsInBlocks();
    NoDotsInBypass();
    hide Split, Resolve, ResolveExpected, Get, GetOrNull;
    ResolveTwo(expected, CHECKS, "checks");
    ResolveTwo(expected, REVIEWS, BYPASS);
  }

  // ----- what a clean validation says -----

  lemma CleanPolicy(policy: Json)
    requires Validate(policy) == []
    ensures policy.Obj? && ExpectedOf(policy).Obj? && ExceptionsOf(policy).Some?
    ensures var expected, exceptions := ExpectedOf(policy), ExceptionsOf(policy).value;
      && MissingKeys(expected, BOOLEAN_KEYS + [CHECKS, REVIEWS]) == []
      && DeclaredCheckIssues(expected) == []
      && MistypedKeys(expected, BOOLEAN_KEYS) == []
      && DeclaredReviewIssues(expected) == []
      && ExceptionIssues(expected, exceptions) == []
      && UndocumentedIssues(expected, exceptions) == []
  {
    hide ExpectedOf, ExceptionsOf, MissingKeys, DeclaredCheckIssues, MistypedKeys, DeclaredReviewIssues,
      ExceptionIssues, UndocumentedIssues, AuthorityIssues, Unstated;
  }

  lemma {:induction false} NoMissing(v: Json, keys: seq<string>, key: string)
    requires MissingKeys(v, keys) == [] && key in keys
    ensures Get(v, key).Some?
  {
    if key != keys[0] {
      NoMissing(v, keys[1..], key);
    }
  }

  lemma {:induction false} NoMistyped(v: Json, keys: seq<string>, key: string)
    requires MistypedKeys(v, keys) == [] && key in keys
    ensures Get(v, key).Some? ==> Get(v, key).value.Bool?
  {
    if key != keys[0] {
      NoMistyped(v, keys[1..], key);
    }
  }

  /** The declared checks of a valid policy are good. */
  lemma CleanChecks(policy: Json)
    requires Validate(policy) == []
    ensures var expected := ExpectedOf(policy);
      && GoodChecks(DeclaredChecks(expected)) && DeclaredChecks(expected) != []
      && DeclaredChecks(expected) == ItemsOf(Get(GetOrNull(expected, CHECKS), "checks"))
      && Get(GetOrNull(expected, CHECKS), "strict").Some?
      && GetOrNull(GetOrNull(expected, CHECKS), "strict").Bool?
  {
    hide Validate, ExpectedOf, ExceptionsOf, DeclaredReviewIssues, ExceptionIssues, UndocumentedIssues,
      RequiredCheckIssues, DeclaredChecks, MissingKeys, MistypedKeys;
    CleanPolicy(policy);
    var expected := ExpectedOf(policy);
    ResolveBlocks(expected);
    var keys := BOOLEAN_KEYS + [CHECKS, REVIEWS];
    assert keys[|BOOLEAN_KEYS|] == CHECKS;
    NoMissing(expected, keys, CHECKS);
    var checks := GetOrNull(expected, CHECKS);
    NoMissing(checks, ["strict", "checks"], "strict");
    NoMissing(checks, ["strict", "checks"], "checks");
    DeclaredChecksClean(Get(checks, "checks").value);
  }

  // ----- declared exactly when documented -----

  lemma {:induction false} ExceptionBinds(expected: Json, exceptions: seq<Json>, e: Json)
    requires ExceptionIssues(expected, exceptions) == [] && e in exceptions
    ensures Complete(e) && Binds(expected, e)
  {
    hide Complete, Binds;
    if e != exceptions[0] {
      ExceptionBinds(expected, exceptions[1..], e);
    }
  }

  lemma {:induction false} WeakIsDocumented(expected: Json, documented: set<string>, controls: seq<Control>, c: Control)
    requires WeakIssues(expected, documented, controls) == [] && c in controls && DeclaredWeak(expected, c)
    ensures Name(c) in documented
  {
    hide DeclaredWeak;
    if c != controls[0] {
      WeakIsDocumented(expected, documented, controls[1..], c);
    }
  }

  lemma SameTypedChain(actual: Json, value: Json, c: Control)
    requires SameTyped(value, Weak(c)) && SameTyped(actual, value)
    ensures SameTyped(actual, Weak(c))
  {}

  lemma DocumentedWeakness(expected: Json, e: Json, c: Control)
    requires FieldText(e) == Name(c) && Binds(expected, e)
    ensures DeclaredWeak(expected, c)
  {
    NameIsPlain(c);
    NamedControl(c);
    var value := GetOrNull(e, "value");
    hide FieldText, Name, ControlNamed, GetOrNull, ResolveExpected, Audited, IsNestedReviewField,
      PresentDeclaredNotTrue, SameTyped, Weak;
    SameTypedChain(ResolveExpected(expected, Name(c)).value, value, c);
  }

  /** In a valid policy a posture is declared weak exactly when an exception names it. */
  lemma WeakIffDocumented(policy: Json, c: Control)
    requires Validate(policy) == []
    ensures DeclaredWeak(ExpectedOf(policy), c) <==> Name(c) in DocumentedFields(policy)
  {
    hide Validate, DeclaredWeak, ExceptionIssues, UnpinnedIssues, BypassIssues, WeakIssues, Binds, Complete, FieldText,
      MissingKeys, MistypedKeys, DeclaredCheckIssues, DeclaredReviewIssues, Name;
    CleanPolicy(policy);
    var expected, exceptions := ExpectedOf(policy), ExceptionsOf(policy).value;
    assert c in CONTROLS;
    if DeclaredWeak(expected, c) {
      WeakIsDocumented(expected, Documented(exceptions), CONTROLS, c);
    }
    if Name(c) in Documented(exceptions) {
      var e :| e in exceptions && e.Obj? && FieldText(e) == Name(c);
      ExceptionBinds(expected, exceptions, e);
      DocumentedWeakness(expected, e, c);
    }
  }

  lemma {:induction false} UnpinnedIsDocumented(checks: seq<Json>, documented: set<string>, context: string)
    requires UnpinnedIssues(checks, documented) == [] && Unpinned(checks, context)
    ensures APP_PREFIX + context in documented
  {
    hide ContextText;
    var check :| check in checks && ContextText(check) == Some(context) && Get(check, "app_id") == Some(Null);
    if check != checks[0] {
      assert check in checks[1..];
      UnpinnedIsDocumented(checks[1..], documented, context);
    }
  }

  lemma {:induction false} NullBindingIsUnpinned(checks: seq<Json>, context: string)
    requires BindingOf(checks, context) == Some(Null)
    requires forall i :: 0 <= i < |checks| ==> GoodCheck(checks[i])
    ensures Unpinned(checks, context)
  {
    hide ContextText;
    var last := checks[|checks| - 1];
    if ContextText(last) == Some(context) {
      assert last in checks && GoodCheck(checks[|checks| - 1]);
    } else {
      NullBindingIsUnpinned(checks[..|checks| - 1], context);
    }
  }

  /** In a valid policy any app may satisfy a context exactly when an exception says so. */
  lemma UnpinnedIffDocumented(policy: Json, context: string)
    requires Validate(policy) == []
    ensures Unpinned(DeclaredChecks(ExpectedOf(policy)), context)
      <==> APP_PREFIX + context in DocumentedFields(policy)
  {
    hide Validate, ExceptionIssues, UnpinnedIssues, BypassIssues, WeakIssues, Complete, FieldText, DeclaredChecks,
      Unpinned, MissingKeys, MistypedKeys, DeclaredCheckIssues, DeclaredReviewIssues, Binds;
    CleanPolicy(policy);
    CleanChecks(policy);
    var expected, exceptions := ExpectedOf(policy), ExceptionsOf(policy).value;
    var field := APP_PREFIX + context;
    if Unpinned(DeclaredChecks(expected), context) {
      UnpinnedIsDocumented(DeclaredChecks(expected), Documented(exceptions), context);
    }
    if field in Documented(exceptions) {
      var e :| e in exceptions && e.Obj? && FieldText(e) == field;
      ExceptionBinds(expected, exceptions, e);
      BoundContext(expected, e, context);
      NullBindingIsUnpinned(DeclaredChecks(expected), context);
    }
  }

  lemma BoundContext(expected: Json, e: Json, context: string)
    requires FieldText(e) == APP_PREFIX + context && Binds(expected, e)
    ensures BindingOf(DeclaredChecks(expected), context) == Some(Null)
  {
    hide FieldText, DeclaredChecks, BindingOf;
    assert (APP_PREFIX + context)[|APP_PREFIX|..] == context;
  }

  lemma {:induction false} BypassIsDocumented(
      bypass: Option<Json>, documented: set<string>, categories: seq<string>, category: string)
    requires BypassIssues(bypass, documented, categories) == [] && category in categories && Populated(bypass, category)
    ensures BYPASS_PREFIX + category in documented
  {
    hide Populated;
    if category != categories[0] {
      BypassIsDocumented(bypass, documented, categories[1..], category);
    }
  }

  lemma {:induction false} LastPart(head: string, tail: string)
    requires '.' !in tail && head != "" && head[|head| - 1] == '.'
    ensures AfterLastDot(head + tail) == tail
  {
    if tail == "" {
      assert head + tail == head;
    } else {
      var s := head + tail;
      assert s[|s| - 1] == tail[|tail| - 1] && tail[|tail| - 1] in tail;
      assert s[..|s| - 1] == head + tail[..|tail| - 1];
      LastPart(head, tail[..|tail| - 1]);
      assert tail[..|tail| - 1] + [tail[|tail| - 1]] == tail;
    }
  }

  /** A bypass field is no per-context field, and its last part is the category. */
  lemma BypassFieldName(category: string)
    requires category in CATEGORIES
    ensures !(APP_PREFIX <= BYPASS_PREFIX + category) && BYPASS_PREFIX <= BYPASS_PREFIX + category
    ensures AfterLastDot(BYPASS_PREFIX + category) == category
  {
    assert '.' !in category;
    LastPart(BYPASS_PREFIX, category);
    hide AfterLastDot;
    assert APP_PREFIX[9] == 's' && BYPASS_PREFIX[9] == 'p' && |BYPASS_PREFIX| > 9;
    assert (BYPASS_PREFIX + category)[9] == BYPASS_PREFIX[9];
    NotPrefix(APP_PREFIX, BYPASS_PREFIX + category, 9);
  }

  lemma BoundCategory(expected: Json, e: Json, category: string)
    requires FieldText(e) == BYPASS_PREFIX + category && Binds(expected, e) && category in CATEGORIES
    ensures Populated(DeclaredBypass(expected), category)
  {
    hide FieldText, Populated, AfterLastDot, DeclaredBypass;
    BypassFieldName(category);
  }

  /** In a valid policy a bypass category lists somebody exactly when an exception names it. */
  lemma BypassIffDocumented(policy: Json, category: string)
    requires Validate(policy) == [] && category in CATEGORIES
    ensures Populated(DeclaredBypass(ExpectedOf(policy)), category)
      <==> BYPASS_PREFIX + category in DocumentedFields(policy)
  {
    CleanPolicy(policy);
    hide Validate, ExceptionIssues, UnpinnedIssues, BypassIssues, WeakIssues, Complete, FieldText, DeclaredBypass,
      Populated, Binds;
    var expected, exceptions := ExpectedOf(policy), ExceptionsOf(policy).value;
    if Populated(DeclaredBypass(expected), category) {
      BypassIsDocumented(DeclaredBypass(expected), Documented(exceptions), CATEGORIES, category);
    }
    if BYPASS_PREFIX + category in Documented(exceptions) {
      var e :| e in exceptions && e.Obj? && FieldText(e) == BYPASS_PREFIX + category;
      ExceptionBinds(expected, exceptions, e);
      BoundCategory(expected, e, category);
    }
  }
}
