/**
 The two halves of the branch-protection gate together: what is live and weak is documented, except
 under one declaration that the validation lets through.
 */
module BranchPolicyLive {
  import opened Wrappers
  import opened Json
  import opened BranchPolicy
  import opened BranchPolicyLaws
  import opened BranchPolicyGate

  /** What the live configuration says about a control; nothing when its review block is absent. */
  function LiveValue(live: Json, c: Control): Option<Json> {
    var reviews := GetOrNull(live, REVIEWS);
    match c
    case Strict => Some(GetOrNull(LiveCheckBlock(live), "strict"))
    case Present => Some(Bool(!reviews.Null?))
    case DismissStale => if reviews.Null? then None else Some(GetOrNull(reviews, Key(c)))
    case ApprovalCount => if reviews.Null? then None else Some(GetOrNull(reviews, Key(c)))
    case _ => Some(Enabled(GetOrNull(live, Key(c))))
  }

  predicate LiveWeak(live: Json, c: Control) {
    LiveValue(live, c).Some? && PyEqual(LiveValue(live, c).value, Weak(c))
  }

  /** A zero that is a number and not the boolean `false`, though Python calls them equal. */
  predicate NumericZero(v: Json) {
    !v.Bool? && NumberOf(v) == Some(0.0)
  }

  predicate PresentIsZero(policy: Json) {
    NumericZero(GetOrNull(GetOrNull(ExpectedOf(policy), REVIEWS), "present"))
  }

  // ----- taking the comparison apart -----

  lemma CleanComparison(policy: Json, live: Json, codeowners: bool)
    requires Compare(policy, live, codeowners) == []
    ensures var expected := ExpectedOf(policy);
      && live.Obj?
      && CompareScalars(live, expected, codeowners, BOOLEAN_KEYS) == []
      && PyEqual(GetOrNull(LiveCheckBlock(live), "strict"), GetOrNull(GetOrNull(expected, CHECKS), "strict"))
      && CompareChecks(GetOrNull(LiveCheckBlock(live), "checks"),
                       ItemsOf(Get(GetOrNull(expected, CHECKS), "checks"))) == []
      && CompareReviews(GetOrNull(live, REVIEWS), GetOrNull(expected, REVIEWS)) == []
  {
    hide ExpectedOf, CompareScalars, CompareChecks, CompareReviews, LiveCheckBlock, PyEqual, GetOrNull, ItemsOf;
  }

  lemma {:induction false} ScalarsAgree(live: Json, expected: Json, codeowners: bool, keys: seq<string>, key: string)
    requires CompareScalars(live, expected, codeowners, keys) == [] && key in keys
    ensures PyEqual(LiveScalar(live, key, codeowners), GetOrNull(expected, key))
  {
    hide LiveScalar, PyEqual;
    if key != keys[0] {
      ScalarsAgree(live, expected, codeowners, keys[1..], key);
    }
  }

  lemma {:induction false} KeyAgrees(live: Json, declared: Json, keys: seq<string>, key: string)
    requires CompareKeys(live, declared, keys) == [] && key in keys
    ensures PyEqual(GetOrNull(live, key), GetOrNull(declared, key))
  {
    hide PyEqual;
    if key != keys[0] {
      KeyAgrees(live, declared, keys[1..], key);
    }
  }

  lemma {:induction false} ScalarsClean(live: Json, expected: Json, codeowners: bool, keys: seq<string>)
    requires forall i :: 0 <= i < |keys| ==>
      PyEqual(LiveScalar(live, keys[i], codeowners), GetOrNull(expected, keys[i]))
    ensures CompareScalars(live, expected, codeowners, keys) == []
  {
    hide LiveScalar, PyEqual, GetOrNull;
    if keys != [] {
      ScalarsClean(live, expected, codeowners, keys[1..]);
    }
  }

  lemma {:induction false} KeysClean(live: Json, declared: Json, keys: seq<string>)
    requires forall i :: 0 <= i < |keys| ==> PyEqual(GetOrNull(live, keys[i]), GetOrNull(declared, keys[i]))
    ensures CompareKeys(live, declared, keys) == []
  {
    hide PyEqual, GetOrNull;
    if keys != [] {
      KeysClean(live, declared, keys[1..]);
    }
  }

  // ----- exactness -----

  /**
   The live value of a setting is as declared. GitHub reports most settings as an object with an
   `enabled` member, some as a plain value, and two follow from something else.
   */
  ghost predicate SettingIs(live: Json, key: string, codeowners: bool, declared: Json) {
    if key == "restrictions_present" then PyEqual(Bool(GetOrNull(live, "restrictions") != Null), declared)
    else if key == "codeowners_present" then PyEqual(Bool(codeowners), declared)
    else match GetOrNull(live, key)
      case Obj(members) =>
        (match Lookup(members, "enabled")
         case Some(enabled) => PyEqual(enabled, declared)
         case None => PyEqual(Null, declared))
      case plain => PyEqual(plain, declared)
  }

  lemma SettingExactly(live: Json, key: string, codeowners: bool, declared: Json)
    ensures SettingIs(live, key, codeowners, declared) <==> PyEqual(LiveScalar(live, key, codeowners), declared)
  {
    hide PyEqual;
  }

  ghost predicate ScalarsEqual(live: Json, expected: Json, codeowners: bool) {
    forall i :: 0 <= i < |BOOLEAN_KEYS| ==>
      SettingIs(live, BOOLEAN_KEYS[i], codeowners, GetOrNull(expected, BOOLEAN_KEYS[i]))
  }

  ghost predicate ReviewKeysEqual(live: Json, declared: Json) {
    forall i :: 0 <= i < |REVIEW_KEYS| ==> PyEqual(GetOrNull(live, REVIEW_KEYS[i]), GetOrNull(declared, REVIEW_KEYS[i]))
  }

  /** The names of a live category: users by login, teams and apps by slug, nameless objects as "". */
  ghost predicate LiveNames(live: Json, category: string, names: seq<string>) {
    var key := if category == "users" then "login" else "slug";
    match Get(live, category)
    case None => names == []
    case Some(Arr(items)) => |items| == |names| && forall i :: 0 <= i < |items| ==> HasName(items[i], key, names[i])
    case _ => false
  }

  ghost predicate HasName(item: Json, key: string, name: string) {
    item.Obj? && match Lookup(item.members, key)
      case None => name == ""
      case Some(v) => v == Str(name)
  }

  ghost predicate DeclaredNames(declared: Json, category: string, names: seq<string>) {
    var items := ItemsOf(Get(declared, category));
    |items| == |names| && forall i :: 0 <= i < |items| ==> items[i] == Str(names[i])
  }

  lemma {:induction false} NamesExactly(items: seq<Json>, key: string, names: seq<string>)
    ensures NamesOf(items, key) == Some(names)
      <==> |items| == |names| && forall i :: 0 <= i < |items| ==> HasName(items[i], key, names[i])
  {
    if items != [] && names != [] {
      NamesExactly(items[1..], key, names[1..]);
      assert names == [names[0]] + names[1..];
      assert forall i :: 0 < i < |items| ==> items[i] == items[1..][i - 1];
      assert forall i :: 0 < i < |names| ==> names[i] == names[1..][i - 1];
    }
  }

  lemma {:induction false} TextsExactly(items: seq<Json>, names: seq<string>)
    ensures TextsOf(items) == Some(names)
      <==> |items| == |names| && forall i :: 0 <= i < |items| ==> items[i] == Str(names[i])
  {
    if items != [] && names != [] {
      TextsExactly(items[1..], names[1..]);
      assert names == [names[0]] + names[1..];
      assert forall i :: 0 < i < |items| ==> items[i] == items[1..][i - 1];
      assert forall i :: 0 < i < |names| ==> names[i] == names[1..][i - 1];
    }
  }

  /** The live category lists the declared names, in any order. */
  ghost predicate ListsDeclared(live: Json, declared: Json, category: string) {
    exists xs, ys :: LiveNames(live, category, xs) && DeclaredNames(declared, category, ys)
      && multiset(xs) == multiset(ys)
  }

  lemma LiveNamesExactly(live: Json, category: string, names: seq<string>)
    ensures LiveNames(live, category, names)
      <==> Names(Get(live, category), if category == "users" then "login" else "slug") == Some(names)
  {
    hide HasName, NamesOf;
    if Get(live, category).Some? && Get(live, category).value.Arr? {
      NamesExactly(Get(live, category).value.items, if category == "users" then "login" else "slug", names);
    }
  }

  lemma ListsExactly(live: Json, declared: Json, category: string)
    ensures SameNames(live, declared, category) <==> ListsDeclared(live, declared, category)
  {
    hide LiveNames, Names, TextsOf, ItemsOf;
    var key := if category == "users" then "login" else "slug";
    var items := ItemsOf(Get(declared, category));
    forall names ensures LiveNames(live, category, names) <==> Names(Get(live, category), key) == Some(names) {
      LiveNamesExactly(live, category, names);
    }
    forall names ensures DeclaredNames(declared, category, names) <==> TextsOf(items) == Some(names) {
      TextsExactly(items, names);
    }
    hide DeclaredNames;
    if SameNames(live, declared, category) {
      assert LiveNames(live, category, Names(Get(live, category), key).value);
      assert DeclaredNames(declared, category, TextsOf(items).value);
    }
  }

  /** The declared allowances have no category but the known ones, and each lists the live names. */
  ghost predicate BypassEqual(live: Json, declared: Json) {
    && (!Truthy(live) || live.Obj?) && declared.Obj?
    && (forall key :: key in Keys(declared.members) ==> key in CATEGORIES)
    && forall i :: 0 <= i < |CATEGORIES| ==> ListsDeclared(live, declared, CATEGORIES[i])
  }

  /** The live review block is there when declared, and then agrees in every key and allowance. */
  ghost predicate ReviewsEqual(live: Json, declared: Json) {
    && PyEqual(Bool(!live.Null?), GetOrNull(declared, "present"))
    && (live.Null?
        || (live.Obj? && ReviewKeysEqual(live, declared)
            && BypassEqual(GetOrNull(live, BYPASS), GetOrNull(declared, BYPASS))))
  }

  /** The live check block is as strict as declared and its list binds the same contexts to the same apps. */
  ghost predicate ChecksEqual(block: Json, expected: Json) {
    var list := GetOrNull(block, "checks");
    && block.Obj?
    && PyEqual(GetOrNull(block, "strict"), GetOrNull(GetOrNull(expected, CHECKS), "strict"))
    && list.Arr? && SoundChecks(list.items)
    && SameBindings(list.items, ItemsOf(Get(GetOrNull(expected, CHECKS), "checks")))
  }

  lemma BypassExactly(live: Json, declared: Json)
    ensures CompareBypass(live, declared) == [] <==> BypassEqual(live, declared)
  {
    hide SameNames, ListsDeclared;
    forall category ensures SameNames(live, declared, category) <==> ListsDeclared(live, declared, category) {
      ListsExactly(live, declared, category);
    }
    if declared.Obj? {
      assert (exists category <- CATEGORIES :: !SameNames(live, declared, category)) <==>
        exists i :: 0 <= i < |CATEGORIES| && !SameNames(live, declared, CATEGORIES[i]);
    }
  }

  lemma ReviewsExactly(live: Json, declared: Json)
    ensures CompareReviews(live, declared) == [] <==> ReviewsEqual(live, declared)
  {
    hide PyEqual, CompareBypass, BypassEqual, GetOrNull;
    BypassExactly(GetOrNull(live, BYPASS), GetOrNull(declared, BYPASS));
    if CompareKeys(live, declared, REVIEW_KEYS) == [] {
      forall i | 0 <= i < |REVIEW_KEYS|
        ensures PyEqual(GetOrNull(live, REVIEW_KEYS[i]), GetOrNull(declared, REVIEW_KEYS[i]))
      {
        KeyAgrees(live, declared, REVIEW_KEYS, REVIEW_KEYS[i]);
      }
    }
    if ReviewKeysEqual(live, declared) {
      KeysClean(live, declared, REVIEW_KEYS);
    }
  }

  lemma ScalarsExactly(live: Json, expected: Json, codeowners: bool)
    ensures CompareScalars(live, expected, codeowners, BOOLEAN_KEYS) == [] <==> ScalarsEqual(live, expected, codeowners)
  {
    hide PyEqual, LiveScalar, GetOrNull, SettingIs, CompareScalars;
    forall i | 0 <= i < |BOOLEAN_KEYS|
      ensures SettingIs(live, BOOLEAN_KEYS[i], codeowners, GetOrNull(expected, BOOLEAN_KEYS[i]))
        <==> PyEqual(LiveScalar(live, BOOLEAN_KEYS[i], codeowners), GetOrNull(expected, BOOLEAN_KEYS[i]))
    {
      SettingExactly(live, BOOLEAN_KEYS[i], codeowners, GetOrNull(expected, BOOLEAN_KEYS[i]));
    }
    if CompareScalars(live, expected, codeowners, BOOLEAN_KEYS) == [] {
      forall i | 0 <= i < |BOOLEAN_KEYS|
        ensures PyEqual(LiveScalar(live, BOOLEAN_KEYS[i], codeowners), GetOrNull(expected, BOOLEAN_KEYS[i]))
      {
        ScalarsAgree(live, expected, codeowners, BOOLEAN_KEYS, BOOLEAN_KEYS[i]);
      }
    }
    if ScalarsEqual(live, expected, codeowners) {
      ScalarsClean(live, expected, codeowners, BOOLEAN_KEYS);
    }
  }

  /** The check block as the comparison reads it, and as it stands in the document. */
  lemma BlockExactly(live: Json, expected: Json, declared: seq<Json>)
    requires GoodChecks(declared) && declared != []
    requires declared == ItemsOf(Get(GetOrNull(expected, CHECKS), "checks"))
    ensures ChecksEqual(GetOrNull(live, CHECKS), expected) <==>
      && LiveCheckBlock(live).Obj?
      && PyEqual(GetOrNull(LiveCheckBlock(live), "strict"), GetOrNull(GetOrNull(expected, CHECKS), "strict"))
      && CompareChecks(GetOrNull(LiveCheckBlock(live), "checks"), declared) == []
  {
    hide PyEqual, CompareChecks, GoodChecks, SoundChecks, SameBindings, ItemsOf;
    LiveChecksExactly(GetOrNull(LiveCheckBlock(live), "checks"), declared);
    LiveChecksExactly(Null, declared);
  }

  /** The comparison finds nothing exactly when every setting, check and review rule is live as declared. */
  lemma ComparisonExactly(policy: Json, live: Json, codeowners: bool)
    requires Validate(policy) == []
    ensures Compare(policy, live, codeowners) == [] <==>
      && live.Obj?
      && ScalarsEqual(live, ExpectedOf(policy), codeowners)
      && ChecksEqual(GetOrNull(live, CHECKS), ExpectedOf(policy))
      && ReviewsEqual(GetOrNull(live, REVIEWS), GetOrNull(ExpectedOf(policy), REVIEWS))
  {
    hide Validate, ExpectedOf, PyEqual, CompareScalars, CompareChecks, CompareReviews, ScalarsEqual, ReviewsEqual,
      LiveCheckBlock, GoodChecks, Bindings, DeclaredChecks, LiveEntries, GetOrNull, ItemsOf, Get, ChecksEqual;
    CleanChecks(policy);
    var expected := ExpectedOf(policy);
    ScalarsExactly(live, expected, codeowners);
    ReviewsExactly(GetOrNull(live, REVIEWS), GetOrNull(expected, REVIEWS));
    BlockExactly(live, expected, DeclaredChecks(expected));
  }

  /** Two values equal to a third: a declared boolean equal to a live weak value is the weak value. */
  lemma WeakThroughEquality(live: Json, declared: Json, c: Control)
    requires PyEqual(live, declared) && PyEqual(live, Weak(c))
    requires declared.Bool? || (c.ApprovalCount? && IntegerOrNull(declared))
    requires c.ApprovalCount? ==> !declared.Bool?
    ensures SameTyped(declared, Weak(c))
  {}

  /** A boolean control of a valid policy is declared as a boolean. */
  lemma DeclaredBoolean(policy: Json, c: Control)
    requires Validate(policy) == [] && !InReviews(c)
    ensures Declared(ExpectedOf(policy), c).Some? && Declared(ExpectedOf(policy), c).value.Bool?
  {
    if c.Strict? {
      hide Validate, ExpectedOf, DeclaredChecks, GoodChecks;
      CleanChecks(policy);
    } else {
      hide Validate, ExpectedOf, Get;
      LiveScalarOf(Null, true, c);
      BooleanDeclared(policy, Key(c));
    }
  }

  lemma BooleanDeclared(policy: Json, key: string)
    requires Validate(policy) == [] && key in BOOLEAN_KEYS
    ensures Get(ExpectedOf(policy), key).Some? && GetOrNull(ExpectedOf(policy), key).Bool?
  {
    hide Validate, ExpectedOf, ExceptionsOf, DeclaredReviewIssues, DeclaredCheckIssues, ExceptionIssues,
      UndocumentedIssues, MissingKeys, MistypedKeys, Get;
    CleanPolicy(policy);
    InPrefix(BOOLEAN_KEYS, [CHECKS, REVIEWS], key);
    NoMissing(ExpectedOf(policy), BOOLEAN_KEYS + [CHECKS, REVIEWS], key);
    NoMistyped(ExpectedOf(policy), BOOLEAN_KEYS, key);
  }

  lemma InPrefix(a: seq<string>, b: seq<string>, x: string)
    requires x in a
    ensures x in a + b
  {}

  predicate DeclaredPresent(reviews: Json) {
    Truthy(GetOrNull(reviews, "present"))
  }

  /** A review block that says whether it is present, and if so declares its controls in full. */
  predicate SoundReviews(reviews: Json) {
    && reviews.Obj? && Get(reviews, "present").Some?
    && (DeclaredPresent(reviews) ==>
          && GetOrNull(reviews, "present") == Bool(true)
          && Get(reviews, Key(DismissStale)).Some? && GetOrNull(reviews, Key(DismissStale)).Bool?
          && Get(reviews, COUNT).Some? && IntegerOrNull(GetOrNull(reviews, COUNT)))
  }

  lemma DeclaredReviews(policy: Json)
    requires Validate(policy) == []
    ensures SoundReviews(GetOrNull(ExpectedOf(policy), REVIEWS))
  {
    hide Validate, ExpectedOf, ExceptionsOf, DeclaredCheckIssues, ExceptionIssues, UndocumentedIssues, SoundReviews,
      DeclaredReviewIssues, MissingKeys, MistypedKeys;
    CleanPolicy(policy);
    var expected := ExpectedOf(policy);
    var keys := BOOLEAN_KEYS + [CHECKS, REVIEWS];
    assert keys[|BOOLEAN_KEYS| + 1] == REVIEWS;
    NoMissing(expected, keys, REVIEWS);
    ReviewsWhenPresent(expected);
  }

  lemma ReviewsWhenPresent(expected: Json)
    requires DeclaredReviewIssues(expected) == [] && Get(expected, REVIEWS).Some?
    ensures SoundReviews(GetOrNull(expected, REVIEWS))
  {
    hide MissingKeys, MistypedKeys, DeclaredBypassIssues, Get;
    var reviews := GetOrNull(expected, REVIEWS);
    if reviews.Obj? && Get(reviews, "present").Some? && DeclaredPresent(reviews) {
      var keys := REVIEW_KEYS + [BYPASS];
      assert keys[0] == COUNT && keys[1] == Key(DismissStale);
      NoMissing(reviews, keys, COUNT);
      NoMissing(reviews, keys, Key(DismissStale));
      assert BOOLEAN_REVIEW_KEYS[0] == "present" && BOOLEAN_REVIEW_KEYS[1] == Key(DismissStale);
      NoMistyped(reviews, BOOLEAN_REVIEW_KEYS, "present");
      NoMistyped(reviews, BOOLEAN_REVIEW_KEYS, Key(DismissStale));
    }
  }

  // ----- postures -----

  lemma DocumentedFrom(policy: Json, c: Control, declared: Json)
    requires Validate(policy) == []
    requires Declared(ExpectedOf(policy), c) == Some(declared) && SameTyped(declared, Weak(c))
    ensures Name(c) in DocumentedFields(policy)
  {
    hide Validate, ExpectedOf, ExceptionsOf, DocumentedFields, Declared, SameTyped;
    ResolveControl(ExpectedOf(policy), c);
    WeakIffDocumented(policy, c);
  }

  lemma LiveScalarOf(live: Json, codeowners: bool, c: Control)
    requires !InReviews(c) && !c.Strict?
    ensures LiveValue(live, c) == Some(LiveScalar(live, Key(c), codeowners)) && Key(c) in BOOLEAN_KEYS
  {
    hide GetOrNull, Enabled;
    assert |Key(c)| == 14 || |Key(c)| == 23 || |Key(c)| == 18 || |Key(c)| == 15 || |Key(c)| == 32;
    if |Key(c)| == 18 {
      assert Key(c)[0] == 'a';
    }
  }

  /** Every registered weak posture that is live is named by an exception, but for one declaration. */
  lemma LiveWeaknessIsDocumented(policy: Json, live: Json, codeowners: bool, c: Control)
    requires Validate(policy) == [] && Compare(policy, live, codeowners) == [] && LiveWeak(live, c)
    ensures Name(c) in DocumentedFields(policy) || (c == Present && PresentIsZero(policy))
  {
    CleanComparison(policy, live, codeowners);
    hide Validate, Compare, ExpectedOf, DocumentedFields, CompareScalars, CompareChecks, CompareReviews, PyEqual,
      SameTyped, GetOrNull, ItemsOf, LiveCheckBlock, Key, Name, Weak, LiveScalar;
    var expected := ExpectedOf(policy);
    if InReviews(c) {
      ReviewWeaknessIsDocumented(policy, live, c);
    } else {
      DeclaredBoolean(policy, c);
      if !c.Strict? {
        LiveScalarOf(live, codeowners, c);
        ScalarsAgree(live, expected, codeowners, BOOLEAN_KEYS, Key(c));
      }
      BooleanWeakness(policy, LiveValue(live, c).value, c);
    }
  }

  /** The setting is live in its weak value, as a plain value or as an object that says so. */
  ghost predicate WeakAsReported(v: Json, c: Control) {
    match v
    case Obj(members) => Lookup(members, "enabled").Some? && PyEqual(Lookup(members, "enabled").value, Weak(c))
    case plain => PyEqual(plain, Weak(c))
  }

  /** The same, told from the live document alone, posture by posture. */
  lemma ReportedWeaknessIsDocumented(policy: Json, live: Json, codeowners: bool, c: Control)
    requires Validate(policy) == [] && Compare(policy, live, codeowners) == []
    requires match c
      case Strict => PyEqual(GetOrNull(GetOrNull(live, CHECKS), "strict"), Bool(false))
      case Present => GetOrNull(live, REVIEWS) == Null
      case DismissStale => PyEqual(GetOrNull(GetOrNull(live, REVIEWS), "dismiss_stale_reviews"), Bool(false))
      case ApprovalCount => PyEqual(GetOrNull(GetOrNull(live, REVIEWS), COUNT), Int(0))
      case _ => WeakAsReported(GetOrNull(live, Key(c)), c)
    ensures Name(c) in DocumentedFields(policy) || (c == Present && PresentIsZero(policy))
  {
    hide Validate, Compare, DocumentedFields, PresentIsZero, Name;
    ReportedIsLive(policy, live, codeowners, c);
    LiveWeaknessIsDocumented(policy, live, codeowners, c);
  }

  lemma ReportedIsLive(policy: Json, live: Json, codeowners: bool, c: Control)
    requires Validate(policy) == [] && Compare(policy, live, codeowners) == []
    requires match c
      case Strict => PyEqual(GetOrNull(GetOrNull(live, CHECKS), "strict"), Bool(false))
      case Present => GetOrNull(live, REVIEWS) == Null
      case DismissStale => PyEqual(GetOrNull(GetOrNull(live, REVIEWS), "dismiss_stale_reviews"), Bool(false))
      case ApprovalCount => PyEqual(GetOrNull(GetOrNull(live, REVIEWS), COUNT), Int(0))
      case _ => WeakAsReported(GetOrNull(live, Key(c)), c)
    ensures LiveWeak(live, c)
  {
    hide Validate, Compare, ExpectedOf, PyEqual, ScalarsEqual, ReviewsEqual, ChecksEqual, Key;
    ComparisonExactly(policy, live, codeowners);
    NullIsNotWeak(c);
    match c
    case Strict => BlockIsRead(live, ExpectedOf(policy));
    case Present => AbsentIsWeak(live);
    case DismissStale => assert Key(c) == "dismiss_stale_reviews" by { KeyOfReview(); }
    case ApprovalCount => assert Key(c) == COUNT by { KeyOfReview(); }
    case _ => PlainIsRead(live, c);
  }

  lemma AbsentIsWeak(live: Json)
    requires GetOrNull(live, REVIEWS) == Null
    ensures LiveWeak(live, Present)
  {}

  lemma KeyOfReview()
    ensures Key(DismissStale) == "dismiss_stale_reviews" && Key(ApprovalCount) == COUNT
  {}

  lemma BlockIsRead(live: Json, expected: Json)
    requires ChecksEqual(GetOrNull(live, CHECKS), expected)
    ensures LiveCheckBlock(live) == GetOrNull(live, CHECKS)
  {
    hide PyEqual, SoundChecks, SameBindings, ItemsOf;
  }

  lemma PlainIsRead(live: Json, c: Control)
    requires !InReviews(c) && !c.Strict? && WeakAsReported(GetOrNull(live, Key(c)), c)
    ensures LiveWeak(live, c)
  {
    hide PyEqual, Key;
  }

  lemma NullIsNotWeak(c: Control)
    ensures !PyEqual(Null, Weak(c))
  {}

  lemma BooleanWeakness(policy: Json, live: Json, c: Control)
    requires Validate(policy) == [] && PyEqual(live, Weak(c)) && !c.ApprovalCount?
    requires var declared := Declared(ExpectedOf(policy), c);
      declared.Some? && declared.value.Bool? && PyEqual(live, declared.value)
    ensures Name(c) in DocumentedFields(policy)
  {
    hide Validate, ExpectedOf, DocumentedFields, Declared, Name;
    WeakThroughEquality(live, Declared(ExpectedOf(policy), c).value, c);
    DocumentedFrom(policy, c, Declared(ExpectedOf(policy), c).value);
  }

  lemma ReviewWeaknessIsDocumented(policy: Json, live: Json, c: Control)
    requires Validate(policy) == [] && InReviews(c) && LiveWeak(live, c)
    requires CompareReviews(GetOrNull(live, REVIEWS), GetOrNull(ExpectedOf(policy), REVIEWS)) == []
    ensures Name(c) in DocumentedFields(policy) || (c == Present && PresentIsZero(policy))
  {
    hide Validate, ExpectedOf, DocumentedFields, CompareBypass, CompareKeys, SameTyped, PyEqual, Truthy, Name, Weak,
      Key;
    DeclaredReviews(policy);
    var reviews, liveReviews := GetOrNull(ExpectedOf(policy), REVIEWS), GetOrNull(live, REVIEWS);
    var present := GetOrNull(reviews, "present");
    if liveReviews.Null? {
      AbsentReviews(policy, present);
    } else {
      EqualToTrue(present);
      PresentReviews(policy, liveReviews, c);
    }
  }

  lemma AbsentReviews(policy: Json, present: Json)
    requires Validate(policy) == [] && PyEqual(Bool(false), present)
    requires Get(GetOrNull(ExpectedOf(policy), REVIEWS), "present") == Some(present)
    ensures Name(Present) in DocumentedFields(policy) || PresentIsZero(policy)
  {
    hide Validate, ExpectedOf, DocumentedFields, Name;
    if present.Bool? {
      BooleanWeakness(policy, Bool(false), Present);
    }
  }

  lemma PresentReviews(policy: Json, liveReviews: Json, c: Control)
    requires Validate(policy) == [] && InReviews(c)
    requires DeclaredPresent(GetOrNull(ExpectedOf(policy), REVIEWS))
    requires CompareKeys(liveReviews, GetOrNull(ExpectedOf(policy), REVIEWS), REVIEW_KEYS) == []
    requires PyEqual(if c.Present? then Bool(true) else GetOrNull(liveReviews, Key(c)), Weak(c))
    ensures Name(c) in DocumentedFields(policy)
  {
    hide Validate, ExpectedOf, DocumentedFields, CompareKeys, Name, DeclaredPresent, Get;
    DeclaredReviews(policy);
    var reviews := GetOrNull(ExpectedOf(policy), REVIEWS);
    assert !c.Present?;
    assert REVIEW_KEYS[0] == COUNT && REVIEW_KEYS[1] == Key(DismissStale);
    KeyAgrees(liveReviews, reviews, REVIEW_KEYS, Key(c));
    var declared := GetOrNull(reviews, Key(c));
    WeakThroughEquality(GetOrNull(liveReviews, Key(c)), declared, c);
    DocumentedFrom(policy, c, declared);
  }

  lemma EqualToTrue(v: Json)
    requires PyEqual(Bool(true), v)
    ensures Truthy(v)
  {
    assert NumberOf(v) == Some(1.0);
    if v.Dec? && v.d.coefficient == 0 {
      ZeroValue(v.d);
    }
  }

  lemma ZeroValue(d: Decimal)
    requires d.coefficient == 0
    ensures Value(d) == 0.0
  {}

  // ----- apps and bypasses -----

  /** Live checks that bind as declared leave a context open only where it is declared open. */
  lemma OpenIsUnpinned(declared: seq<Json>, context: string)
    requires BindsTo(declared, context, Null)
    ensures Unpinned(declared, context)
  {
    var i :| 0 <= i < |declared| && IsCheck(declared[i], context, Null);
    assert declared[i] in declared;
  }

  /** Every live context that any app may satisfy is named by an exception. */
  lemma LiveUnpinnedIsDocumented(policy: Json, live: Json, codeowners: bool, context: string)
    requires Validate(policy) == [] && Compare(policy, live, codeowners) == []
    requires BindsTo(ItemsOf(Get(GetOrNull(live, CHECKS), "checks")), context, Null)
    ensures APP_PREFIX + context in DocumentedFields(policy)
  {
    hide Validate, Compare, ExpectedOf, ExceptionsOf, DocumentedFields, ScalarsEqual, ReviewsEqual,
      DeclaredChecks, GoodChecks, SoundChecks, PyEqual, BindsTo, Unpinned;
    CleanChecks(policy);
    ComparisonExactly(policy, live, codeowners);
    var declared := DeclaredChecks(ExpectedOf(policy));
    assert BindsTo(declared, context, Null);
    OpenIsUnpinned(declared, context);
    UnpinnedIffDocumented(policy, context);
  }

  /** Every live bypass category that lists somebody is named by an exception. */
  lemma LiveBypassIsDocumented(policy: Json, live: Json, codeowners: bool, category: string)
    requires Validate(policy) == [] && Compare(policy, live, codeowners) == [] && category in CATEGORIES
    requires Populated(Get(GetOrNull(live, REVIEWS), BYPASS), category)
    ensures BYPASS_PREFIX + category in DocumentedFields(policy)
  {
    hide Validate, Compare, ExpectedOf, ExceptionsOf, DocumentedFields, CompareScalars, CompareChecks, LiveCheckBlock,
      PyEqual, DeclaredBypass, DeclaredChecks, Populated, CompareReviews, ItemsOf;
    CleanComparison(policy, live, codeowners);
    ResolveBlocks(ExpectedOf(policy));
    BypassOfReviews(GetOrNull(live, REVIEWS), GetOrNull(ExpectedOf(policy), REVIEWS), category);
    BypassIffDocumented(policy, category);
  }

  lemma BypassOfReviews(live: Json, declared: Json, category: string)
    requires CompareReviews(live, declared) == [] && category in CATEGORIES && Populated(Get(live, BYPASS), category)
    ensures Populated(Get(declared, BYPASS), category)
  {
    hide CompareBypass, CompareKeys, PyEqual;
    BypassAgrees(GetOrNull(live, BYPASS), GetOrNull(declared, BYPASS), category);
  }

  lemma BypassAgrees(live: Json, declared: Json, category: string)
    requires CompareBypass(live, declared) == [] && category in CATEGORIES
    requires ItemsOf(Get(live, category)) != []
    ensures ItemsOf(Get(declared, category)) != []
  {
    hide NamesOf, TextsOf;
    assert SameNames(live, declared, category);
    var key := if category == "users" then "login" else "slug";
    var xs, ys := Names(Get(live, category), key).value, TextsOf(ItemsOf(Get(declared, category))).value;
    assert |multiset(xs)| == |xs| && |multiset(ys)| == |ys|;
  }
}
