/**
 scripts/check_branch_protection_policy.py: the offline validation of the policy document and the
 comparison of live branch protection with it. Both return the list of issues they found; where the
 script would stop on a value of the wrong shape, the model reports that value as `Unreadable`.
 */
module BranchPolicy {
  import opened Wrappers
  import opened Text
  import opened Json

  datatype Issue =
    | Unreadable(what: string)
    | NoRepository
    | MissingKey(key: string)
    | Undeclared(field: string)
    | RetiredContexts
    | WrongType(field: string)
    | ChecksEmpty
    | CheckNotObject(index: nat)
    | CheckUnnamed(index: nat)
    | CheckRepeated(context: string)
    | CheckWithoutApp(index: nat)
    | CheckAppMistyped(index: nat)
    | ExceptionIncomplete
    | ExceptionUnbound(field: string)
    | Undocumented(field: string)
    | Differs(field: string)
    | LiveChecks(problem: string)

  const REVIEWS := "required_pull_request_reviews"
  const CHECKS := "required_status_checks"
  const BYPASS := "bypass_pull_request_allowances"
  const CHECK_LIST := CHECKS + "." + "checks"
  const REVIEW_BLOCK := REVIEWS + "." + "present"
  const BYPASS_FIELD := REVIEWS + "." + BYPASS
  const APP_PREFIX := CHECK_LIST + ".app_id:"
  const BYPASS_PREFIX := BYPASS_FIELD + "."

  const CATEGORIES: seq<string> := ["users", "teams", "apps"]

  const BOOLEAN_KEYS: seq<string> := [
    "enforce_admins", "required_linear_history", "allow_force_pushes", "allow_deletions",
    "required_conversation_resolution", "restrictions_present", "codeowners_present",
    "lock_branch", "required_signatures", "block_creations", "allow_fork_syncing"]

  const COUNT := "required_approving_review_count"

  const REVIEW_KEYS: seq<string> := [
    COUNT, "dismiss_stale_reviews", "require_code_owner_reviews", "require_last_push_approval"]

  const BOOLEAN_REVIEW_KEYS: seq<string> := [
    "present", "dismiss_stale_reviews", "require_code_owner_reviews", "require_last_push_approval"]

  const EXCEPTION_KEYS: seq<string> := ["field", "value", "reason", "compensating_controls", "retires_when"]

  /** The postures whose weak value must be documented. */
  datatype Control =
    | EnforceAdmins | LinearHistory | ForcePushes | Deletions | ConversationResolution
    | Strict | Present | DismissStale | ApprovalCount

  function Name(c: Control): string {
    match c
    case EnforceAdmins => "enforce_admins"
    case LinearHistory => "required_linear_history"
    case ForcePushes => "allow_force_pushes"
    case Deletions => "allow_deletions"
    case ConversationResolution => "required_conversation_resolution"
    case Strict => CHECKS + "." + "strict"
    case Present => REVIEW_BLOCK
    case DismissStale => REVIEWS + "." + "dismiss_stale_reviews"
    case ApprovalCount => REVIEWS + "." + COUNT
  }

  function Weak(c: Control): Json {
    match c
    case ForcePushes => Bool(true)
    case Deletions => Bool(true)
    case ApprovalCount => Int(0)
    case _ => Bool(false)
  }

  const CONTROLS: seq<Control> := [
    EnforceAdmins, LinearHistory, ForcePushes, Deletions, ConversationResolution, Strict, Present, DismissStale,
    ApprovalCount]

  /** Exactly the fields the live comparison reads. */
  predicate Audited(field: string) {
    || field in BOOLEAN_KEYS
    || field == CHECKS + "." + "strict"
    || field == CHECK_LIST
    || field == REVIEW_BLOCK
    || field == BYPASS_FIELD
    || (exists key <- REVIEW_KEYS :: field == REVIEWS + "." + key)
    || (exists category <- CATEGORIES :: field == BYPASS_PREFIX + category)
  }

  // ----- small pieces -----

  function When(condition: bool, issue: Issue): seq<Issue> {
    if condition then [issue] else []
  }

  function Get(v: Json, key: string): Option<Json> {
    if v.Obj? then Lookup(v.members, key) else None
  }

  /** `dict.get(key)` */
  function GetOrNull(v: Json, key: string): Json {
    match Get(v, key)
    case None => Null
    case Some(x) => x
  }

  predicate Truthy(v: Json) {
    match v
    case Null => false
    case Bool(b) => b
    case Int(n) => n != 0
    case Dec(d) => d.coefficient != 0
    case Str(s) => s != ""
    case Arr(items) => items != []
    case Obj(members) => members != []
  }

  predicate Blank(s: string) {
    Strip(s) == ""
  }

  /** Equal, and of exactly the same type. */
  predicate SameTyped(a: Json, b: Json) {
    && PyEqual(a, b)
    && (a.Bool? <==> b.Bool?) && (a.Int? <==> b.Int?) && (a.Dec? <==> b.Dec?)
  }

  /** `_resolve_expected`: the value at a dotted field, if every part is there. */
  function Resolve(node: Json, parts: seq<string>): Option<Json> {
    if parts == [] then Some(node)
    else match Get(node, parts[0])
      case None => None
      case Some(next) => Resolve(next, parts[1..])
  }

  function ResolveExpected(expected: Json, field: string): Option<Json> {
    Resolve(expected, Split(field, '.'))
  }

  method ResolveField(expected: Json, field: string) returns (found: bool, value: Json)
    ensures found == ResolveExpected(expected, field).Some?
    ensures value == if found then ResolveExpected(expected, field).value else Null
  {
    var parts := Split(field, '.');
    var node := expected;
    assert parts[0..] == parts;
    for i := 0 to |parts|
      invariant Resolve(expected, parts) == Resolve(node, parts[i..])
    {
      assert parts[i..][1..] == parts[i + 1..];
      var next := Get(node, parts[i]);
      if next.None? {
        return false, Null;
      }
      node := next.value;
    }
    return true, node;
  }

  // ----- declared required checks -----

  /** The context a check names, when it is a string that is not blank. */
  function ContextOf(check: Json): Option<string> {
    match Get(check, "context")
    case Some(Str(s)) => if Blank(s) then None else Some(s)
    case _ => None
  }

  predicate IntegerOrNull(v: Json) {
    v.Int? || v.Null?
  }

  /** The issues of one declared check, given the contexts named before it. */
  function CheckIssues(check: Json, index: nat, seen: set<string>): seq<Issue> {
    if !check.Obj? then [CheckNotObject(index)]
    else
      var context := ContextOf(check);
      When(context.None?, CheckUnnamed(index))
      + (if context.Some? && context.value in seen then [CheckRepeated(context.value)] else [])
      + match Get(check, "app_id")
        case None => [CheckWithoutApp(index)]
        case Some(id) => When(!IntegerOrNull(id), CheckAppMistyped(index))
  }

  function CheckListIssues(checks: seq<Json>, index: nat, seen: set<string>): seq<Issue>
    requires index <= |checks|
    decreases |checks| - index
  {
    if index == |checks| then []
    else CheckIssues(checks[index], index, seen) + CheckListIssues(checks, index + 1, seen + Named(checks[index]))
  }

  function Named(check: Json): set<string> {
    match ContextOf(check)
    case None => {}
    case Some(context) => {context}
  }

  function RequiredCheckIssues(declared: Json): seq<Issue> {
    if !declared.Arr? then [WrongType(CHECK_LIST)]
    else if declared.items == [] then [ChecksEmpty]
    else CheckListIssues(declared.items, 0, {})
  }

  lemma CheckListStep(checks: seq<Json>, index: nat, seen: set<string>)
    requires index <= |checks|
    ensures index < |checks| ==> (CheckListIssues(checks, index, seen)
      == CheckIssues(checks[index], index, seen) + CheckListIssues(checks, index + 1, seen + Named(checks[index])))
    ensures CheckListIssues(checks, |checks|, seen) == []
  {}

  /** The loop body: what one check adds to the issues. */
  method InspectCheck(check: Json, index: nat, seen: set<string>) returns (issues: seq<Issue>)
    ensures issues == CheckIssues(check, index, seen)
  {
    hide ContextOf;
    if !check.Obj? {
      return [CheckNotObject(index)];
    }
    issues := [];
    var context := ContextOf(check);
    if context.None? {
      issues := issues + [CheckUnnamed(index)];
    } else if context.value in seen {
      issues := issues + [CheckRepeated(context.value)];
    }
    var id := Get(check, "app_id");
    if id.None? {
      issues := issues + [CheckWithoutApp(index)];
    } else if !IntegerOrNull(id.value) {
      issues := issues + [CheckAppMistyped(index)];
    }
  }

  method RequiredChecks(declared: Json) returns (issues: seq<Issue>)
    ensures issues == RequiredCheckIssues(declared)
  {
    if !declared.Arr? {
      return [WrongType(CHECK_LIST)];
    }
    if declared.items == [] {
      return [ChecksEmpty];
    }
    hide CheckListIssues, CheckIssues, ContextOf;
    issues := [];
    var seen: set<string> := {};
    for index := 0 to |declared.items|
      invariant CheckListIssues(declared.items, 0, {}) == issues + CheckListIssues(declared.items, index, seen)
    {
      var check := declared.items[index];
      CheckListStep(declared.items, index, seen);
      var found := InspectCheck(check, index, seen);
      Assoc(issues, found, CheckListIssues(declared.items, index + 1, seen + Named(check)));
      issues := issues + found;
      var context := ContextOf(check);
      if context.Some? {
        seen := seen + {context.value};
      } else {
        assert seen + Named(check) == seen;
      }
    }
    CheckListStep(declared.items, 0, seen);
    assert issues + [] == issues;
  }

  // ----- exceptions -----

  /** Items of a list; the scripts skip anything that is not one. */
  function ItemsOf(v: Option<Json>): seq<Json> {
    match v
    case Some(Arr(items)) => items
    case _ => []
  }

  /** The string under `context`, blank or not. */
  function ContextText(check: Json): Option<string> {
    match Get(check, "context")
    case Some(Str(s)) => Some(s)
    case _ => None
  }

  /** The app bound to a context by the last check that names it. */
  function BindingOf(checks: seq<Json>, context: string): Option<Json> {
    if checks == [] then None
    else
      var last := checks[|checks| - 1];
      if ContextText(last) == Some(context) then Some(GetOrNull(last, "app_id"))
      else BindingOf(checks[..|checks| - 1], context)
  }

  /** The text of an exception's `field`; other values name no field at all. */
  function FieldText(exception: Json): string {
    match Get(exception, "field")
    case Some(Str(s)) => s
    case _ => ""
  }

  /** `field.rpartition(".")[2]` */
  function AfterLastDot(s: string): string {
    if s == "" || s[|s| - 1] == '.' then "" else AfterLastDot(s[..|s| - 1]) + [s[|s| - 1]]
  }

  function DeclaredChecks(expected: Json): seq<Json> {
    ItemsOf(ResolveExpected(expected, CHECK_LIST))
  }

  function DeclaredBypass(expected: Json): Option<Json> {
    ResolveExpected(expected, BYPASS_FIELD)
  }

  /** A category that lists somebody. */
  predicate Populated(bypass: Option<Json>, category: string) {
    bypass.Some? && ItemsOf(Get(bypass.value, category)) != []
  }

  predicate IsNestedReviewField(field: string) {
    (REVIEWS + ".") <= field && field != REVIEW_BLOCK
  }

  function ControlNamed(field: string): Option<Control> {
    FirstNamed(field, CONTROLS)
  }

  function FirstNamed(field: string, controls: seq<Control>): (r: Option<Control>)
    ensures r.Some? ==> Name(r.value) == field
    ensures r.None? ==> forall c <- controls :: Name(c) != field
  {
    if controls == [] then None
    else if Name(controls[0]) == field then Some(controls[0])
    else FirstNamed(field, controls[1..])
  }

  /** `_exception_binding_issues`: whether the exception documents a deviation that is declared. */
  predicate Binds(expected: Json, exception: Json) {
    var field, value := FieldText(exception), GetOrNull(exception, "value");
    if APP_PREFIX <= field then
      value.Null? && BindingOf(DeclaredChecks(expected), field[|APP_PREFIX|..]) == Some(Null)
    else if BYPASS_PREFIX <= field then
      Populated(DeclaredBypass(expected), AfterLastDot(field))
    else
      && Audited(field)
      && !(IsNestedReviewField(field) && PresentDeclaredNotTrue(expected))
      && if field == CHECK_LIST then
           && ResolveExpected(expected, field).Some? && ResolveExpected(expected, field).value.Arr?
           && value.Str? && !Blank(value.s)
           && BindingOf(DeclaredChecks(expected), value.s).None?
         else
           && (ControlNamed(field).Some? ==> SameTyped(value, Weak(ControlNamed(field).value)))
           && ResolveExpected(expected, field).Some?
           && SameTyped(ResolveExpected(expected, field).value, value)
  }

  predicate PresentDeclaredNotTrue(expected: Json) {
    var present := ResolveExpected(expected, REVIEW_BLOCK);
    present.Some? && present.value != Bool(true)
  }

  predicate Complete(exception: Json) {
    exception.Obj? && forall key <- EXCEPTION_KEYS :: Get(exception, key).Some?
  }

  function ExceptionIssues(expected: Json, exceptions: seq<Json>): seq<Issue> {
    if exceptions == [] then []
    else
      (if !Complete(exceptions[0]) then [ExceptionIncomplete]
       else When(!Binds(expected, exceptions[0]), ExceptionUnbound(FieldText(exceptions[0]))))
      + ExceptionIssues(expected, exceptions[1..])
  }

  function Documented(exceptions: seq<Json>): set<string> {
    set e | e in exceptions && e.Obj? :: FieldText(e)
  }

  /** The fields the policy's exceptions name. */
  function DocumentedFields(policy: Json): set<string> {
    match ExceptionsOf(policy)
    case None => {}
    case Some(exceptions) => Documented(exceptions)
  }

  /** The declared contexts any app may satisfy. */
  predicate Unpinned(checks: seq<Json>, context: string) {
    exists check <- checks :: ContextText(check) == Some(context) && Get(check, "app_id") == Some(Null)
  }

  function UnpinnedIssues(checks: seq<Json>, documented: set<string>): seq<Issue> {
    if checks == [] then []
    else
      var context := ContextText(checks[0]);
      (if context.Some? && Get(checks[0], "app_id") == Some(Null)
       then When(APP_PREFIX + context.value !in documented, Undocumented(APP_PREFIX + context.value))
       else [])
      + UnpinnedIssues(checks[1..], documented)
  }

  function BypassIssues(bypass: Option<Json>, documented: set<string>, categories: seq<string>): seq<Issue> {
    if categories == [] then []
    else
      var field := BYPASS_PREFIX + categories[0];
      When(Populated(bypass, categories[0]) && field !in documented, Undocumented(field))
      + BypassIssues(bypass, documented, categories[1..])
  }

  predicate DeclaredWeak(expected: Json, c: Control) {
    var actual := ResolveExpected(expected, Name(c));
    actual.Some? && SameTyped(actual.value, Weak(c))
  }

  function WeakIssues(expected: Json, documented: set<string>, controls: seq<Control>): seq<Issue> {
    if controls == [] then []
    else
      When(DeclaredWeak(expected, controls[0]) && Name(controls[0]) !in documented, Undocumented(Name(controls[0])))
      + WeakIssues(expected, documented, controls[1..])
  }

  function UndocumentedIssues(expected: Json, exceptions: seq<Json>): seq<Issue> {
    var documented := Documented(exceptions);
    UnpinnedIssues(DeclaredChecks(expected), documented)
    + BypassIssues(DeclaredBypass(expected), documented, CATEGORIES)
    + WeakIssues(expected, documented, CONTROLS)
  }

  // ----- the whole document -----

  function MissingKeys(v: Json, keys: seq<string>): seq<Issue> {
    if keys == [] then []
    else When(Get(v, keys[0]).None?, Undeclared(keys[0])) + MissingKeys(v, keys[1..])
  }

  function MistypedKeys(v: Json, keys: seq<string>): seq<Issue> {
    if keys == [] then []
    else
      When(Get(v, keys[0]).Some? && !Get(v, keys[0]).value.Bool?, WrongType(keys[0])) + MistypedKeys(v, keys[1..])
  }

  /** A missing or blank string; any other value counts as text. */
  predicate Unstated(v: Option<Json>) {
    v.None? || (v.value.Str? && Blank(v.value.s))
  }

  function AuthorityIssues(authority: Option<Json>): seq<Issue> {
    if authority.Some? && !authority.value.Obj? then [Unreadable("review_authority")]
    else
      var v := if authority.Some? then authority.value else Obj([]);
      When(Unstated(Get(v, "review_lead")), Undeclared("review_authority.review_lead"))
      + When(Unstated(Get(v, "mergeable_meaning")), Undeclared("review_authority.mergeable_meaning"))
      + When(Unstated(Get(v, "escalation")), Undeclared("review_authority.escalation"))
  }

  function DeclaredCheckIssues(expected: Json): seq<Issue> {
    var checks := if Get(expected, CHECKS).Some? then Get(expected, CHECKS).value else Obj([]);
    if !checks.Obj? then [Unreadable(CHECKS)]
    else
      MissingKeys(checks, ["strict", "checks"])
      + When(Get(checks, "contexts").Some?, RetiredContexts)
      + (if Get(checks, "checks").Some? then RequiredCheckIssues(Get(checks, "checks").value) else [])
      + When(Get(checks, "strict").Some? && !Get(checks, "strict").value.Bool?, WrongType("strict"))
  }

  function DeclaredReviewIssues(expected: Json): seq<Issue> {
    var reviews := if Get(expected, REVIEWS).Some? then Get(expected, REVIEWS).value else Obj([]);
    if !reviews.Obj? then [Unreadable(REVIEWS)]
    else if Get(reviews, "present").None? then [Undeclared("present")]
    else if !Truthy(Get(reviews, "present").value) then []
    else
      var count := GetOrNull(reviews, COUNT);
      MissingKeys(reviews, REVIEW_KEYS + [BYPASS])
      + MistypedKeys(reviews, BOOLEAN_REVIEW_KEYS)
      + When(!IntegerOrNull(count), WrongType(COUNT))
      + DeclaredBypassIssues(if Get(reviews, BYPASS).Some? then Get(reviews, BYPASS).value else Obj([]))
  }

  function DeclaredBypassIssues(bypass: Json): seq<Issue> {
    if !bypass.Obj? then [Unreadable(BYPASS)]
    else MissingKeys(bypass, CATEGORIES) + NotLists(bypass, CATEGORIES)
  }

  function NotLists(v: Json, keys: seq<string>): seq<Issue> {
    if keys == [] then []
    else When(Get(v, keys[0]).Some? && !Get(v, keys[0]).value.Arr?, WrongType(keys[0])) + NotLists(v, keys[1..])
  }

  /** What iterating over `documented_exceptions` yields; an empty string or object yields nothing. */
  function ExceptionsOf(policy: Json): Option<seq<Json>> {
    match Get(policy, "documented_exceptions")
    case None => Some([])
    case Some(Arr(items)) => Some(items)
    case Some(Obj(members)) => Some(seq(|members|, i requires 0 <= i < |members| => Str(members[i].key)))
    case Some(Str(s)) => Some(seq(|s|, i requires 0 <= i < |s| => Str([s[i]])))
    case _ => None
  }

  function ExpectedOf(policy: Json): Json {
    match Get(policy, "expected")
    case None => Obj([])
    case Some(v) => v
  }

  function Validate(policy: Json): seq<Issue> {
    if !policy.Obj? then [Unreadable("policy")]
    else
      When(Unstated(Get(policy, "repository")), NoRepository)
      + MissingKeys(policy, ["repository", "protected_branch", "expected", "documented_exceptions"])
      + AuthorityIssues(Get(policy, "review_authority"))
      + var expected := ExpectedOf(policy);
        if !expected.Obj? then [Unreadable("expected")]
        else
          MissingKeys(expected, BOOLEAN_KEYS + [CHECKS, REVIEWS])
          + DeclaredCheckIssues(expected)
          + MistypedKeys(expected, BOOLEAN_KEYS)
          + DeclaredReviewIssues(expected)
          + match ExceptionsOf(policy)
            case None => [Unreadable("documented_exceptions")]
            case Some(exceptions) =>
              ExceptionIssues(expected, exceptions) + UndocumentedIssues(expected, exceptions)
  }

  // ----- the live comparison -----

  /** `_enabled` */
  function Enabled(node: Json): Json {
    if node.Obj? then GetOrNull(node, "enabled") else node
  }

  /** `list(live or [])` */
  function LiveEntries(live: Json): Option<seq<Json>> {
    if !Truthy(live) then Some([])
    else match live
      case Arr(items) => Some(items)
      case Obj(members) => Some(seq(|members|, i requires 0 <= i < |members| => Str(members[i].key)))
      case Str(s) => Some(seq(|s|, i requires 0 <= i < |s| => Str([s[i]])))
      case _ => None
  }

  /** The live contexts and what each is bound to; the last record of a context counts. */
  function Bindings(entries: seq<Json>): map<string, Json> {
    if entries == [] then map[]
    else
      var init, last := Bindings(entries[..|entries| - 1]), entries[|entries| - 1];
      match ContextOf(last)
      case None => init
      case Some(context) => init[context := GetOrNull(last, "app_id")]
  }

  function NamedEntries(entries: seq<Json>): seq<Json> {
    if entries == [] then []
    else (if ContextOf(entries[0]).Some? then [entries[0]] else []) + NamedEntries(entries[1..])
  }

  /** `_compare_required_checks` */
  function CompareChecks(live: Json, declared: seq<Json>): seq<Issue> {
    match LiveEntries(live)
    case None => [Unreadable(CHECK_LIST)]
    case Some(entries) =>
      var named, ours, theirs := NamedEntries(entries), Bindings(declared), Bindings(entries);
      When(exists e <- entries :: e.Obj? && ContextOf(e).None?, LiveChecks("unnamed"))
      + When(exists e <- entries :: !e.Obj?, LiveChecks("malformed"))
      + When(exists e <- named :: Get(e, "app_id").Some? && !IntegerOrNull(Get(e, "app_id").value),
             LiveChecks("mistyped"))
      + When(exists e <- named :: Get(e, "app_id").None?, LiveChecks("unbound"))
      + When(|theirs| != |named|, LiveChecks("repeated"))
      + When(exists context <- ours.Keys :: context !in theirs, LiveChecks("missing"))
      + When(exists context <- theirs.Keys :: context !in ours, LiveChecks("undeclared"))
      + When(exists context <- ours.Keys :: context in theirs && !PyEqual(theirs[context], ours[context]),
             LiveChecks("bound differently"))
  }

  /** The names a live bypass category lists; anything but strings cannot be sorted and compared. */
  function Names(v: Option<Json>, key: string): Option<seq<string>> {
    match v
    case None => Some([])
    case Some(Arr(items)) => NamesOf(items, key)
    case _ => None
  }

  function NamesOf(items: seq<Json>, key: string): (r: Option<seq<string>>)
    ensures r.Some? ==> |r.value| == |items|
  {
    if items == [] then Some([])
    else
      var own := match Get(items[0], key)
        case None => if items[0].Obj? then Some("") else None
        case Some(Str(s)) => Some(s)
        case _ => None;
      match (own, NamesOf(items[1..], key))
      case (Some(s), Some(rest)) => Some([s] + rest)
      case _ => None
  }

  function TextsOf(items: seq<Json>): (r: Option<seq<string>>)
    ensures r.Some? ==> |r.value| == |items|
  {
    if items == [] then Some([])
    else match (items[0], TextsOf(items[1..]))
      case (Str(s), Some(rest)) => Some([s] + rest)
      case _ => None
  }

  /** Whether a live category lists the same names as the declared one, in any order. */
  predicate SameNames(live: Json, declared: Json, category: string) {
    var key := if category == "users" then "login" else "slug";
    match (Names(Get(live, category), key), TextsOf(ItemsOf(Get(declared, category))))
    case (Some(xs), Some(ys)) => multiset(xs) == multiset(ys)
    case _ => false
  }

  function CompareBypass(live: Json, declared: Json): seq<Issue> {
    if Truthy(live) && !live.Obj? then [Unreadable(BYPASS)]
    else if !declared.Obj? then [Unreadable(BYPASS)]
    else
      When((exists key <- Keys(declared.members) :: key !in CATEGORIES)
           || exists category <- CATEGORIES :: !SameNames(live, declared, category), Differs(BYPASS))
  }

  function CompareKeys(live: Json, declared: Json, keys: seq<string>): seq<Issue> {
    if keys == [] then []
    else
      When(!PyEqual(GetOrNull(live, keys[0]), GetOrNull(declared, keys[0])), Differs(keys[0]))
      + CompareKeys(live, declared, keys[1..])
  }

  function CompareReviews(live: Json, declared: Json): seq<Issue> {
    if !PyEqual(Bool(!live.Null?), GetOrNull(declared, "present")) then [Differs("present")]
    else if live.Null? then []
    else if !live.Obj? then [Unreadable(REVIEWS)]
    else
      CompareKeys(live, declared, REVIEW_KEYS)
      + CompareBypass(GetOrNull(live, BYPASS), GetOrNull(declared, BYPASS))
  }

  /** The live value of a boolean control. */
  function LiveScalar(live: Json, key: string, codeowners: bool): Json {
    if key == "restrictions_present" then Bool(!GetOrNull(live, "restrictions").Null?)
    else if key == "codeowners_present" then Bool(codeowners)
    else Enabled(GetOrNull(live, key))
  }

  function CompareScalars(live: Json, expected: Json, codeowners: bool, keys: seq<string>): seq<Issue> {
    if keys == [] then []
    else
      When(!PyEqual(LiveScalar(live, keys[0], codeowners), GetOrNull(expected, keys[0])), Differs(keys[0]))
      + CompareScalars(live, expected, codeowners, keys[1..])
  }

  /** `live.get("required_status_checks") or {}` */
  function LiveCheckBlock(live: Json): Json {
    var block := GetOrNull(live, CHECKS);
    if Truthy(block) then block else Obj([])
  }

  /** `compare_live_to_policy`, for a validated policy; `codeowners` is what the checkout holds. */
  function Compare(policy: Json, live: Json, codeowners: bool): seq<Issue> {
    var expected := ExpectedOf(policy);
    var checks := LiveCheckBlock(live);
    if !live.Obj? || !checks.Obj? then [Unreadable("live protection")]
    else
      CompareScalars(live, expected, codeowners, BOOLEAN_KEYS)
      + When(!PyEqual(GetOrNull(checks, "strict"), GetOrNull(GetOrNull(expected, CHECKS), "strict")), Differs("strict"))
      + CompareChecks(GetOrNull(checks, "checks"), ItemsOf(Get(GetOrNull(expected, CHECKS), "checks")))
      + CompareReviews(GetOrNull(live, REVIEWS), GetOrNull(expected, REVIEWS))
  }
}
