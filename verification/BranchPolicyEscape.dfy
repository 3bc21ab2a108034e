/**
 The one declaration under which the branch-protection gate passes over a live weakness, shown to be
 the only one, and the independence of the comparison from the order in which checks are listed.
 */
module BranchPolicyEscape {
  import opened Wrappers
  import opened Text
  import opened Sorting
  import opened Json
  import opened BranchPolicy
  import opened BranchPolicyLaws
  import opened BranchPolicyGate
  import opened BranchPolicyLive

  // ----- order of the live checks -----

  lemma BindingsForgetOrder(xs: seq<Json>, ys: seq<Json>)
    requires multiset(xs) == multiset(ys) && NoneRepeats(xs)
    ensures Bindings(xs) == Bindings(ys)
  {
    hide ContextOf, GetOrNull, NoneRepeats, Bindings;
    SameMembers(xs, ys);
    BindingsKeys(xs);
    BindingsKeys(ys);
    forall c | c in Bindings(ys) ensures c in Bindings(xs) && Bindings(xs)[c] == Bindings(ys)[c] {
      BindingSource(ys, c);
      var e :| e in ys && ContextOf(e) == Some(c) && GetOrNull(e, "app_id") == Bindings(ys)[c];
      BindingOfEntry(xs, e, c);
    }
    forall c | c in Bindings(xs) ensures c in Bindings(ys) {
      var e :| e in xs && ContextOf(e) == Some(c);
      assert e in ys;
    }
  }

  lemma GoodInAnyOrder(xs: seq<Json>, ys: seq<Json>)
    requires multiset(xs) == multiset(ys) && GoodChecks(xs)
    ensures GoodChecks(ys) && Bindings(xs) == Bindings(ys)
  {
    hide GoodCheck, NoneRepeats, Bindings;
    SameMembers(xs, ys);
    BindingsForgetOrder(xs, ys);
    forall i | 0 <= i < |ys| ensures GoodCheck(ys[i]) {
      assert ys[i] in xs;
    }
    GoodAreNamed(xs);
    GoodAreNamed(ys);
    BindingsCount(xs);
    BindingsCount(ys);
  }

  /** Whether the required checks agree does not depend on the order in which the live ones are listed. */
  lemma ComparisonForgetsOrder(xs: seq<Json>, ys: seq<Json>, declared: seq<Json>)
    requires multiset(xs) == multiset(ys) && GoodChecks(declared)
    ensures CompareChecks(Arr(xs), declared) == [] <==> CompareChecks(Arr(ys), declared) == []
  {
    hide CompareChecks, GoodChecks, Bindings;
    RequiredChecksExact(Arr(xs), declared);
    RequiredChecksExact(Arr(ys), declared);
    if GoodChecks(xs) {
      GoodInAnyOrder(xs, ys);
    }
    if GoodChecks(ys) {
      GoodInAnyOrder(ys, xs);
    }
  }

  // ----- a live document that agrees with a policy -----

  /** A dictionary built key by key. */
  function Table(keys: seq<string>, value: string -> Json): seq<Member> {
    if keys == [] then [] else [Member(keys[0], value(keys[0]))] + Table(keys[1..], value)
  }

  lemma {:induction false} TableLookup(keys: seq<string>, value: string -> Json, rest: seq<Member>, key: string)
    ensures Lookup(Table(keys, value) + rest, key) == if key in keys then Some(value(key)) else Lookup(rest, key)
  {
    if keys == [] {
      assert Table(keys, value) + rest == rest;
    } else {
      var first := [Member(keys[0], value(keys[0]))];
      Assoc(first, Table(keys[1..], value), rest);
      assert (first + (Table(keys[1..], value) + rest))[1..] == Table(keys[1..], value) + rest;
      TableLookup(keys[1..], value, rest, key);
    }
  }

  function Declares(expected: Json): string -> Json {
    key => GetOrNull(expected, key)
  }

  /** The live configuration that does exactly what is declared, and has no review block. */
  function Faithful(expected: Json): Json {
    var restrictions := if GetOrNull(expected, "restrictions_present") == Bool(true) then Obj([]) else Null;
    Obj(Table(BOOLEAN_KEYS, Declares(expected))
        + [Member("restrictions", restrictions), Member(CHECKS, FaithfulChecks(expected))])
  }

  lemma LookupPair(a: Member, b: Member, key: string)
    ensures Lookup([a, b], key) ==
      if a.key == key then Some(a.value) else if b.key == key then Some(b.value) else None
  {
    assert [a, b][1..] == [b];
  }

  function FaithfulChecks(expected: Json): (checks: Json)
    ensures checks.Obj? && Truthy(checks)
    ensures GetOrNull(checks, "strict") == GetOrNull(GetOrNull(expected, CHECKS), "strict")
    ensures GetOrNull(checks, "checks") == Arr(DeclaredChecks(expected))
  {
    var strict := Member("strict", GetOrNull(GetOrNull(expected, CHECKS), "strict"));
    var checks := Member("checks", Arr(DeclaredChecks(expected)));
    assert strict.key[0] != checks.key[0];
    LookupPair(strict, checks, checks.key);
    Obj([strict, checks])
  }

  lemma FaithfulParts(expected: Json)
    ensures forall key :: key in BOOLEAN_KEYS ==> GetOrNull(Faithful(expected), key) == GetOrNull(expected, key)
    ensures GetOrNull(Faithful(expected), REVIEWS) == Null
    ensures GetOrNull(Faithful(expected), "restrictions").Null?
      <==> GetOrNull(expected, "restrictions_present") != Bool(true)
    ensures LiveCheckBlock(Faithful(expected)) == FaithfulChecks(expected)
  {
    hide DeclaredChecks, Table, FaithfulChecks;
    var live := Faithful(expected);
    var rest := live.members[|Table(BOOLEAN_KEYS, Declares(expected))|..];
    assert live.members == Table(BOOLEAN_KEYS, Declares(expected)) + rest;
    forall key ensures
      Get(live, key) == if key in BOOLEAN_KEYS then Some(GetOrNull(expected, key)) else Lookup(rest, key)
    {
      TableLookup(BOOLEAN_KEYS, Declares(expected), rest, key);
    }
    BlocksAreNotBoolean();
    forall key ensures Lookup(rest, key) ==
      if rest[0].key == key then Some(rest[0].value) else if rest[1].key == key then Some(rest[1].value) else None
    {
      assert rest == [rest[0], rest[1]];
      LookupPair(rest[0], rest[1], key);
    }
    assert rest[0].key == "restrictions" && |rest[0].key| != |CHECKS|;
    assert Get(live, CHECKS) == Some(FaithfulChecks(expected));
  }

  lemma BlocksAreNotBoolean()
    ensures CHECKS !in BOOLEAN_KEYS && REVIEWS !in BOOLEAN_KEYS && "restrictions" !in BOOLEAN_KEYS
    ensures CHECKS != REVIEWS && |CHECKS| == 22 && |REVIEWS| == 29
  {
    forall i | 0 <= i < |BOOLEAN_KEYS|
      ensures BOOLEAN_KEYS[i] != CHECKS && BOOLEAN_KEYS[i] != REVIEWS && BOOLEAN_KEYS[i] != "restrictions"
    {
      assert |BOOLEAN_KEYS[i]| != |CHECKS|;
      assert |BOOLEAN_KEYS[i]| != |REVIEWS|;
      assert |BOOLEAN_KEYS[i]| != |"restrictions"|;
    }
  }

  lemma FaithfulScalar(expected: Json, codeowners: bool, key: string)
    requires key in BOOLEAN_KEYS && GetOrNull(expected, key).Bool?
    requires GetOrNull(expected, "restrictions_present").Bool?
    requires GetOrNull(expected, "codeowners_present") == Bool(codeowners)
    ensures PyEqual(LiveScalar(Faithful(expected), key, codeowners), GetOrNull(expected, key))
  {
    FaithfulParts(expected);
    hide Faithful, GetOrNull, LiveCheckBlock;
  }

  lemma BooleansDeclared(policy: Json)
    requires Validate(policy) == []
    ensures forall i :: 0 <= i < |BOOLEAN_KEYS| ==> GetOrNull(ExpectedOf(policy), BOOLEAN_KEYS[i]).Bool?
  {
    hide Validate, ExpectedOf;
    forall i | 0 <= i < |BOOLEAN_KEYS| ensures GetOrNull(ExpectedOf(policy), BOOLEAN_KEYS[i]).Bool? {
      BooleanDeclared(policy, BOOLEAN_KEYS[i]);
    }
  }

  /** A valid policy that declares the review block with a zero is met by a checkout without one. */
  lemma FaithfulIsClean(policy: Json)
    requires Validate(policy) == [] && PresentIsZero(policy)
    ensures exists codeowners :: Compare(policy, Faithful(ExpectedOf(policy)), codeowners) == []
  {
    hide Validate, ExpectedOf, Faithful, DeclaredChecks, CompareChecks, CompareScalars, LiveScalar, GetOrNull,
      LiveCheckBlock, GoodChecks, Bindings, ItemsOf, Get;
    BooleansDeclared(policy);
    CleanChecks(policy);
    var expected := ExpectedOf(policy);
    var live := Faithful(expected);
    FaithfulParts(expected);
    assert BOOLEAN_KEYS[5] == "restrictions_present" && BOOLEAN_KEYS[6] == "codeowners_present";
    var codeowners := GetOrNull(expected, "codeowners_present").b;
    forall i | 0 <= i < |BOOLEAN_KEYS|
      ensures PyEqual(LiveScalar(live, BOOLEAN_KEYS[i], codeowners), GetOrNull(expected, BOOLEAN_KEYS[i]))
    {
      FaithfulScalar(expected, codeowners, BOOLEAN_KEYS[i]);
    }
    ScalarsClean(live, expected, codeowners, BOOLEAN_KEYS);
    RequiredChecksExact(Arr(DeclaredChecks(expected)), DeclaredChecks(expected));
    FaithfulIsObject(expected);
    AllClean(policy, live, codeowners);
  }

  lemma FaithfulIsObject(expected: Json)
    ensures Faithful(expected).Obj? && LiveCheckBlock(Faithful(expected)).Obj?
  {
    FaithfulParts(expected);
    hide Table, FaithfulChecks;
  }

  lemma AllClean(policy: Json, live: Json, codeowners: bool)
    requires live.Obj? && LiveCheckBlock(live).Obj? && PresentIsZero(policy) && GetOrNull(live, REVIEWS) == Null
    requires CompareScalars(live, ExpectedOf(policy), codeowners, BOOLEAN_KEYS) == []
    requires GetOrNull(LiveCheckBlock(live), "strict") == GetOrNull(GetOrNull(ExpectedOf(policy), CHECKS), "strict")
    requires GetOrNull(LiveCheckBlock(live), "strict").Bool?
    requires CompareChecks(GetOrNull(LiveCheckBlock(live), "checks"),
                           ItemsOf(Get(GetOrNull(ExpectedOf(policy), CHECKS), "checks"))) == []
    ensures Compare(policy, live, codeowners) == []
  {
    hide ExpectedOf, CompareScalars, CompareChecks, LiveCheckBlock, GetOrNull, ItemsOf, Get;
  }

  /** Some live configuration is weak in a way no exception names, and the comparison finds nothing. */
  ghost predicate Escapes(policy: Json) {
    exists live, codeowners, c ::
      Compare(policy, live, codeowners) == [] && LiveWeak(live, c) && Name(c) !in DocumentedFields(policy)
  }

  /** The gate misses a weak posture exactly when the declared review block is a number equal to zero. */
  lemma EscapesExactly(policy: Json)
    requires Validate(policy) == []
    ensures Escapes(policy) <==> PresentIsZero(policy)
  {
    hide Validate, Compare, DocumentedFields, PresentIsZero, Faithful, LiveWeak, Name, ExpectedOf;
    if Escapes(policy) {
      var live, codeowners, c :|
        Compare(policy, live, codeowners) == [] && LiveWeak(live, c) && Name(c) !in DocumentedFields(policy);
      LiveWeaknessIsDocumented(policy, live, codeowners, c);
    }
    if PresentIsZero(policy) {
      FaithfulIsClean(policy);
      FaithfulIsWeak(ExpectedOf(policy));
      ZeroIsUndocumented(policy);
      assert LiveWeak(Faithful(ExpectedOf(policy)), Present);
    }
  }

  lemma FaithfulIsWeak(expected: Json)
    ensures LiveWeak(Faithful(expected), Present)
  {
    FaithfulParts(expected);
    hide Faithful, GetOrNull;
  }

  lemma ZeroIsUndocumented(policy: Json)
    requires Validate(policy) == [] && PresentIsZero(policy)
    ensures Name(Present) !in DocumentedFields(policy)
  {
    hide Validate, ExpectedOf, DocumentedFields, ResolveExpected, Name;
    WeakIffDocumented(policy, Present);
    ResolveControl(ExpectedOf(policy), Present);
  }

  // ----- such a policy exists -----

  const SAMPLE_KEYS: seq<string> :=
    ["repository", "protected_branch", "review_authority", "expected", "documented_exceptions"]

  const AUTHORITY_KEYS: seq<string> := ["review_lead", "mergeable_meaning", "escalation"]

  function SampleCheck(): Json {
    Obj([Member("context", Str("ci")), Member("app_id", Int(1))])
  }

  function SampleChecks(): Json {
    Obj([Member("strict", Bool(true)), Member("checks", Arr([SampleCheck()]))])
  }

  /** Everything strong, but the review block declared as 0. */
  function SampleExpected(): Json {
    Obj(Table(BOOLEAN_KEYS, key => Bool(!("allow_" <= key)))
        + [Member(CHECKS, SampleChecks()), Member(REVIEWS, Obj([Member("present", Int(0))]))])
  }

  function SampleValue(key: string): Json {
    if key == "expected" then SampleExpected()
    else if key == "documented_exceptions" then Arr([])
    else if key == "review_authority" then Obj(Table(AUTHORITY_KEYS, _ => Str("owner")))
    else Str("main")
  }

  function SamplePolicy(): Json {
    Obj(Table(SAMPLE_KEYS, SampleValue))
  }

  lemma {:induction false} NothingMissing(v: Json, keys: seq<string>)
    requires forall i :: 0 <= i < |keys| ==> Get(v, keys[i]).Some?
    ensures MissingKeys(v, keys) == []
  {
    hide Get;
    if keys != [] {
      NothingMissing(v, keys[1..]);
    }
  }

  lemma {:induction false} NothingMistyped(v: Json, keys: seq<string>)
    requires forall i :: 0 <= i < |keys| ==> GetOrNull(v, keys[i]).Bool?
    ensures MistypedKeys(v, keys) == []
  {
    hide Get;
    if keys != [] {
      NothingMistyped(v, keys[1..]);
    }
  }

  lemma {:induction false} NothingWeak(expected: Json, documented: set<string>, controls: seq<Control>)
    requires forall c :: c in controls ==> !DeclaredWeak(expected, c)
    ensures WeakIssues(expected, documented, controls) == []
  {
    hide DeclaredWeak;
    if controls != [] {
      NothingWeak(expected, documented, controls[1..]);
    }
  }

  lemma SampleSettings()
    ensures SampleExpected().Obj?
    ensures forall key :: key in BOOLEAN_KEYS ==> Get(SampleExpected(), key) == Some(Bool(!("allow_" <= key)))
    ensures Get(SampleExpected(), CHECKS) == Some(SampleChecks())
    ensures Get(SampleExpected(), REVIEWS) == Some(Obj([Member("present", Int(0))]))
  {
    hide Table, SampleChecks;
    BlocksAreNotBoolean();
    var value: string -> Json := key => Bool(!("allow_" <= key));
    var checks, reviews := Member(CHECKS, SampleChecks()), Member(REVIEWS, Obj([Member("present", Int(0))]));
    forall key ensures Get(SampleExpected(), key) ==
      if key in BOOLEAN_KEYS then Some(value(key)) else Lookup([checks, reviews], key)
    {
      TableLookup(BOOLEAN_KEYS, value, [checks, reviews], key);
    }
    LookupPair(checks, reviews, CHECKS);
    LookupPair(checks, reviews, REVIEWS);
  }

  lemma SampleField(key: string)
    requires key in SAMPLE_KEYS
    ensures Get(SamplePolicy(), key) == Some(SampleValue(key))
  {
    hide Table, SampleValue;
    TableLookup(SAMPLE_KEYS, SampleValue, [], key);
    assert Table(SAMPLE_KEYS, SampleValue) + [] == Table(SAMPLE_KEYS, SampleValue);
  }

  lemma AuthorityField(key: string)
    requires key in AUTHORITY_KEYS
    ensures Get(Obj(Table(AUTHORITY_KEYS, _ => Str("owner"))), key) == Some(Str("owner"))
  {
    hide Table;
    var value: string -> Json := _ => Str("owner");
    TableLookup(AUTHORITY_KEYS, value, [], key);
    assert Table(AUTHORITY_KEYS, value) + [] == Table(AUTHORITY_KEYS, value);
  }

  lemma SampleAuthority()
    ensures AuthorityIssues(Get(SamplePolicy(), "review_authority")) == []
  {
    hide SamplePolicy, Table, Get, SampleExpected;
    assert SAMPLE_KEYS[2] == "review_authority";
    SampleField("review_authority");
    AuthorityField(AUTHORITY_KEYS[0]);
    AuthorityField(AUTHORITY_KEYS[1]);
    AuthorityField(AUTHORITY_KEYS[2]);
    StripVisible("owner");
  }

  lemma SampleCheckList()
    ensures Get(SampleChecks(), "strict") == Some(Bool(true))
    ensures Get(SampleChecks(), "checks") == Some(Arr([SampleCheck()]))
    ensures Get(SampleChecks(), "contexts").None?
    ensures GoodChecks([SampleCheck()]) && Get(SampleCheck(), "app_id") == Some(Int(1))
  {
    var strict, checks := Member("strict", Bool(true)), Member("checks", Arr([SampleCheck()]));
    assert strict.key[0] != checks.key[0] && |"contexts"| == 8;
    LookupPair(strict, checks, "checks");
    LookupPair(strict, checks, "contexts");
    LookupPair(Member("context", Str("ci")), Member("app_id", Int(1)), "app_id");
    StripVisible("ci");
  }

  lemma SampleCheckIssues()
    ensures DeclaredCheckIssues(SampleExpected()) == []
    ensures DeclaredChecks(SampleExpected()) == [SampleCheck()]
  {
    hide SampleExpected, SampleCheck, SampleChecks, RequiredCheckIssues, DeclaredChecks;
    SampleSettings();
    SampleCheckList();
    ResolveBlocks(SampleExpected());
    DeclaredChecksClean(Arr([SampleCheck()]));
  }

  lemma SampleReviewIssues()
    ensures DeclaredReviewIssues(SampleExpected()) == []
    ensures DeclaredBypass(SampleExpected()).None?
  {
    hide SampleExpected, DeclaredBypass;
    SampleSettings();
    ResolveBlocks(SampleExpected());
    assert |BYPASS| != |"present"|;
  }

  lemma SampleStrong(c: Control)
    ensures !DeclaredWeak(SampleExpected(), c)
  {
    hide SampleExpected, SampleChecks, ResolveExpected, Name, Key, SameTyped, DeclaredWeak;
    if c.Strict? {
      SampleStrict();
    } else if InReviews(c) {
      SampleReviewStrong(c);
    } else {
      SamplePlainStrong(c);
    }
  }

  lemma SampleStrict()
    ensures !DeclaredWeak(SampleExpected(), Strict)
  {
    hide SampleExpected, SampleChecks, ResolveExpected, Name;
    ResolveControl(SampleExpected(), Strict);
    SampleSettings();
    SampleCheckList();
  }

  lemma SampleReviewStrong(c: Control)
    requires InReviews(c)
    ensures !DeclaredWeak(SampleExpected(), c)
  {
    hide SampleExpected, SampleChecks, ResolveExpected, Name;
    ResolveControl(SampleExpected(), c);
    SampleSettings();
    if !c.Present? {
      assert |Key(c)| != |"present"|;
    }
  }

  lemma SamplePlainStrong(c: Control)
    requires !InReviews(c) && !c.Strict?
    ensures !DeclaredWeak(SampleExpected(), c)
  {
    hide SampleExpected, SampleChecks, ResolveExpected, Name, Key;
    ResolveControl(SampleExpected(), c);
    SampleSettings();
    PlainStrong(c);
  }

  lemma PlainStrong(c: Control)
    requires !InReviews(c) && !c.Strict?
    ensures Key(c) in BOOLEAN_KEYS && Weak(c) == Bool("allow_" <= Key(c))
  {
    LiveScalarOf(Null, true, c);
    if c.ForcePushes? || c.Deletions? {
      assert "allow_" <= Key(c);
    } else {
      NotPrefix("allow_", Key(c), 0);
    }
  }

  lemma SamplePinned()
    ensures UnpinnedIssues([SampleCheck()], {}) == []
  {
    hide SampleCheck;
    SampleCheckList();
    assert UnpinnedIssues([SampleCheck()][1..], {}) == [];
  }

  lemma {:induction false} NoBypass(documented: set<string>, categories: seq<string>)
    ensures BypassIssues(None, documented, categories) == []
  {
    if categories != [] {
      NoBypass(documented, categories[1..]);
    }
  }

  lemma SampleUndocumented()
    ensures UndocumentedIssues(SampleExpected(), []) == []
  {
    hide SampleExpected, DeclaredWeak, DeclaredChecks, DeclaredBypass, UnpinnedIssues, BypassIssues, WeakIssues;
    SampleCheckIssues();
    SampleReviewIssues();
    SamplePinned();
    NoBypass({}, CATEGORIES);
    assert Documented([]) == {};
    forall c | c in CONTROLS ensures !DeclaredWeak(SampleExpected(), c) {
      SampleStrong(c);
    }
    NothingWeak(SampleExpected(), {}, CONTROLS);
  }

  lemma SampleTyped()
    ensures MissingKeys(SampleExpected(), BOOLEAN_KEYS + [CHECKS, REVIEWS]) == []
    ensures MistypedKeys(SampleExpected(), BOOLEAN_KEYS) == []
  {
    hide SampleExpected, SampleChecks, Get;
    SampleSettings();
    NothingMissing(SampleExpected(), BOOLEAN_KEYS + [CHECKS, REVIEWS]);
    NothingMistyped(SampleExpected(), BOOLEAN_KEYS);
  }

  lemma SampleTop()
    ensures ExpectedOf(SamplePolicy()) == SampleExpected() && ExceptionsOf(SamplePolicy()) == Some([])
    ensures Get(SamplePolicy(), "repository") == Some(Str("main"))
    ensures MissingKeys(SamplePolicy(), ["repository", "protected_branch", "expected", "documented_exceptions"]) == []
  {
    hide SamplePolicy, SampleExpected, Get;
    assert SAMPLE_KEYS[0] == "repository" && SAMPLE_KEYS[1] == "protected_branch" && SAMPLE_KEYS[3] == "expected";
    assert SAMPLE_KEYS[4] == "documented_exceptions";
    SampleField(SAMPLE_KEYS[0]);
    SampleField(SAMPLE_KEYS[1]);
    SampleField(SAMPLE_KEYS[3]);
    SampleField(SAMPLE_KEYS[4]);
    NothingMissing(SamplePolicy(), ["repository", "protected_branch", "expected", "documented_exceptions"]);
  }

  /** The escape is real: a policy declaring the review block as 0, with no exception at all, is accepted. */
  lemma EscapeExists()
    ensures Validate(SamplePolicy()) == [] && Escapes(SamplePolicy())
  {
    SampleIsValid();
    SampleIsZero();
    hide Validate, SamplePolicy, Escapes, PresentIsZero;
    EscapesExactly(SamplePolicy());
  }

  lemma SampleIsZero()
    ensures PresentIsZero(SamplePolicy())
  {
    hide SamplePolicy, SampleExpected;
    SampleTop();
    SampleSettings();
  }

  lemma SampleIsValid()
    ensures Validate(SamplePolicy()) == []
  {
    hide SampleExpected, MissingKeys, MistypedKeys, AuthorityIssues, DeclaredCheckIssues, DeclaredReviewIssues,
      UndocumentedIssues, Get, ExpectedOf, ExceptionsOf;
    SampleTop();
    SampleAuthority();
    SampleSettings();
    SampleTyped();
    SampleCheckIssues();
    SampleReviewIssues();
    SampleUndocumented();
    StripVisible("main");
  }
}
