/**
 scripts/check_monetary_float_usage.py: the identity of a finding that survives line movement, the
 findings no allowlist entry covers, and the refreshed allowlist. A finding is the text
 `path:line:source`.
 */
module MonetaryGuard {
  import opened Wrappers
  import opened Text
  import opened Sorting
  import opened Numbering

  /** `isdecimal` and `int`: the number a text reads as, if it is made of decimal digits. */
  type Numeral = string -> Option<nat>

  datatype Place = Place(path: string, source: string)

  datatype Parsed = Parsed(place: Place, line: nat)

  /** The text before and after the first colon. */
  function Cut(s: string): (r: Option<(string, string)>)
    ensures r.Some? ==> ':' !in r.value.0 && s == r.value.0 + ":" + r.value.1
    ensures r.None? ==> ':' !in s
  {
    if s == "" then None
    else if s[0] == ':' then Some(("", s[1..]))
    else match Cut(s[1..])
      case None => None
      case Some((head, tail)) => Some(([s[0]] + head, tail))
  }

  /** `_split_finding` */
  function Parse(numeral: Numeral, finding: string): Option<Parsed> {
    match Cut(finding)
    case None => None
    case Some((path, rest)) =>
      match Cut(rest)
      case None => None
      case Some((number, source)) =>
        match numeral(number)
        case None => None
        case Some(line) => Some(Parsed(Place(path, Strip(source)), line))
  }

  /** How the scan writes a finding. */
  function Finding(path: string, line: nat, source: string): string {
    path + ":" + NatText(line) + ":" + Strip(source)
  }

  function PlaceOfFinding(numeral: Numeral, finding: string): Option<Place> {
    match Parse(numeral, finding)
    case None => None
    case Some(p) => Some(p.place)
  }

  function LineOf(numeral: Numeral, finding: string): nat {
    match Parse(numeral, finding)
    case None => 0
    case Some(p) => p.line
  }

  /** The order of the pairs (line, finding). */
  predicate LineOrder(numeral: Numeral, a: string, b: string) {
    LineOf(numeral, a) < LineOf(numeral, b) || (LineOf(numeral, a) == LineOf(numeral, b) && TextLe(a, b))
  }

  function Before(numeral: Numeral): (string, string) -> bool {
    (a, b) => LineOrder(numeral, a, b)
  }

  function Places(numeral: Numeral): string -> Option<Place> {
    f => PlaceOfFinding(numeral, f)
  }

  /** The findings of one place. */
  function Group(numeral: Numeral, findings: set<string>, place: Place): set<string> {
    set f | f in findings && PlaceOfFinding(numeral, f) == Some(place)
  }

  /** A finding's rank among the findings of its place: how many do not come after it. */
  function Rank(numeral: Numeral, findings: set<string>, finding: string): nat {
    |NotAfter(numeral, findings, finding)|
  }

  function NotAfter(numeral: Numeral, findings: set<string>, finding: string): set<string> {
    set f | f in findings && PlaceOfFinding(numeral, f) == PlaceOfFinding(numeral, finding)
            && LineOrder(numeral, f, finding)
  }

  function KeyText(place: Place, rank: nat): string {
    place.path + ":" + place.source + ":occurrence=" + NatText(rank)
  }

  function StableKey(numeral: Numeral, findings: set<string>, finding: string): string {
    match PlaceOfFinding(numeral, finding)
    case None => finding
    case Some(place) => KeyText(place, Rank(numeral, findings, finding))
  }

  function StableKeys(numeral: Numeral, findings: set<string>): set<string> {
    set f | f in findings :: StableKey(numeral, findings, f)
  }

  // ----- the dictionary fill -----

  lemma LineOrderTotal(numeral: Numeral)
    ensures TotalOrder(Before(numeral))
    ensures forall xs: seq<string> :: Distinguishes(Before(numeral), xs)
  {
    TextOrder();
    hide Parse, TextLe;
    var le := Before(numeral);
    forall a, b, c | le(a, b) && le(b, c) ensures le(a, c) {
      assert TextLe(a, b) && TextLe(b, c) ==> TextLe(a, c);
    }
    forall a, b ensures le(a, b) || le(b, a) {
      assert TextLe(a, b) || TextLe(b, a);
    }
    forall a: string, b: string | TextLe(a, b) && TextLe(b, a) ensures a == b {
      TextTotal(a, b);
    }
  }

  lemma NumberIsRank(numeral: Numeral, findings: set<string>, items: seq<string>, finding: string)
    requires Distinct(items) && finding in items && PlaceOfFinding(numeral, finding).Some?
    requires forall f :: f in items <==> f in findings && PlaceOfFinding(numeral, f).Some?
    requires TotalOrder(Before(numeral))
    ensures Number(items, Places(numeral), Before(numeral), finding) == Rank(numeral, findings, finding)
  {
    hide PlaceOfFinding, LineOrder;
    LineOrderTotal(numeral);
    var keyOf := Places(numeral);
    NumberCounts(items, keyOf, Before(numeral), finding);
    assert UpTo(items, keyOf, Before(numeral), finding) == NotAfter(numeral, findings, finding);
  }

  /** First pass, in whatever order the set yields its findings: those without a line keep their text. */
  method Separate(numeral: Numeral, findings: set<string>) returns (keys: map<string, string>, located: seq<string>)
    ensures Distinct(located)
    ensures forall f :: f in located <==> f in findings && PlaceOfFinding(numeral, f).Some?
    ensures keys == map f | f in findings && PlaceOfFinding(numeral, f).None? :: f
  {
    keys, located := map[], [];
    var remaining := findings;
    while remaining != {}
      invariant remaining <= findings && Distinct(located)
      invariant forall f :: f in located <==> f in findings - remaining && PlaceOfFinding(numeral, f).Some?
      invariant keys == map f | f in findings - remaining && PlaceOfFinding(numeral, f).None? :: f
      decreases remaining
    {
      var finding :| finding in remaining;
      remaining := remaining - {finding};
      if Parse(numeral, finding).None? {
        keys := keys[finding := finding];
      } else {
        located := located + [finding];
      }
    }
  }

  /** Second pass: each located finding is numbered within its place. */
  method NumberLocated(numeral: Numeral, findings: set<string>, located: seq<string>)
    returns (numbers: map<string, nat>)
    requires Distinct(located)
    requires forall f :: f in located <==> f in findings && PlaceOfFinding(numeral, f).Some?
    ensures forall f :: f in numbers <==> f in located
    ensures forall f :: f in located ==> numbers[f] == Rank(numeral, findings, f)
  {
    hide Parse, LineOrder, Rank;
    LineOrderTotal(numeral);
    numbers := NumberOccurrences(located, Places(numeral), Before(numeral));
    forall f | f in located ensures numbers[f] == Rank(numeral, findings, f) {
      NumberIsRank(numeral, findings, located, f);
    }
  }

  /** `stable_finding_keys`: the keys do not depend on the order in which the set yields its findings. */
  method StableFindingKeys(numeral: Numeral, findings: set<string>) returns (keys: map<string, string>)
    ensures keys == map f | f in findings :: StableKey(numeral, findings, f)
  {
    hide PlaceOfFinding, Rank, KeyText;
    var located;
    keys, located := Separate(numeral, findings);
    var numbers := NumberLocated(numeral, findings, located);
    for i := 0 to |located|
      invariant forall f :: f in keys <==> f in findings && (PlaceOfFinding(numeral, f).None? || f in located[..i])
      invariant forall f :: f in keys ==> keys[f] == StableKey(numeral, findings, f)
    {
      var finding := located[i];
      assert finding in located;
      keys := keys[finding := KeyText(PlaceOfFinding(numeral, finding).value, numbers[finding])];
      assert forall f :: f in located[..i + 1] <==> f in located[..i] || f == finding;
    }
  }

  // ----- unapproved findings -----

  /** A finding is excused by its own text, or by an entry that has its place and rank. */
  predicate Excused(numeral: Numeral, findings: set<string>, allowed: set<string>, finding: string) {
    finding in allowed || StableKey(numeral, findings, finding) in StableKeys(numeral, allowed)
  }

  function Unapproved(numeral: Numeral, findings: set<string>, allowed: set<string>): set<string> {
    set f | f in findings && !Excused(numeral, findings, allowed, f)
  }

  /** `find_unapproved_findings` */
  method FindUnapprovedFindings(numeral: Numeral, findings: set<string>, allowed: set<string>)
    returns (unapproved: seq<string>)
    ensures unapproved == SortedSet(Unapproved(numeral, findings, allowed))
  {
    hide StableKey, SortedSet;
    var entryKeys := StableFindingKeys(numeral, allowed);
    var findingKeys := StableFindingKeys(numeral, findings);
    assert entryKeys.Values == StableKeys(numeral, allowed) by {
      forall f | f in allowed ensures StableKey(numeral, allowed, f) in entryKeys.Values {
        assert entryKeys[f] == StableKey(numeral, allowed, f);
      }
    }
    unapproved := SortedSet(set f | f in findings && f !in allowed && findingKeys[f] !in entryKeys.Values);
    assert (set f | f in findings && f !in allowed && findingKeys[f] !in entryKeys.Values)
      == Unapproved(numeral, findings, allowed);
  }

  // ----- refreshing the allowlist -----

  /** Entry `e` has the stable key of the finding. */
  predicate InheritsFrom<M>(
      numeral: Numeral, findings: set<string>, existing: map<string, M>, finding: string, e: string)
  {
    e in existing && StableKey(numeral, existing.Keys, e) == StableKey(numeral, findings, finding)
  }

  /** What a refreshed entry says: its own old entry first, then one with its stable key, then the default one. */
  ghost predicate Carries<M>(
      numeral: Numeral, findings: set<string>, existing: map<string, M>, default: M, finding: string, metadata: M)
  {
    if finding in existing then metadata == existing[finding]
    else if exists e :: InheritsFrom(numeral, findings, existing, finding, e) then
      exists e :: InheritsFrom(numeral, findings, existing, finding, e) && metadata == existing[e]
    else metadata == default
  }

  /** The entries by stable key; where keys collide, any one of them is kept. */
  method ByStableKey<M>(numeral: Numeral, existing: map<string, M>) returns (entries: map<string, M>)
    ensures forall k :: k in entries <==> k in StableKeys(numeral, existing.Keys)
    ensures forall k :: k in entries ==>
      exists e :: e in existing && StableKey(numeral, existing.Keys, e) == k && entries[k] == existing[e]
  {
    hide StableKey;
    var keys := StableFindingKeys(numeral, existing.Keys);
    entries := map[];
    var remaining := keys.Keys;
    while remaining != {}
      invariant remaining <= existing.Keys
      invariant forall k :: k in entries <==>
        exists e :: e in existing.Keys - remaining && StableKey(numeral, existing.Keys, e) == k
      invariant forall k :: k in entries ==>
        exists e :: e in existing && StableKey(numeral, existing.Keys, e) == k && entries[k] == existing[e]
      decreases remaining
    {
      var e :| e in remaining;
      remaining := remaining - {e};
      entries := entries[keys[e] := existing[e]];
    }
  }

  lemma CarriesByKey<M>(
      numeral: Numeral, findings: set<string>, existing: map<string, M>, default: M, finding: string,
      byKey: map<string, M>)
    requires forall k :: k in byKey <==> k in StableKeys(numeral, existing.Keys)
    requires forall k :: k in byKey ==>
      exists e :: e in existing && StableKey(numeral, existing.Keys, e) == k && byKey[k] == existing[e]
    ensures var key := StableKey(numeral, findings, finding);
      Carries(numeral, findings, existing, default, finding,
        if finding in existing then existing[finding] else if key in byKey then byKey[key] else default)
  {
    hide StableKey;
    var key := StableKey(numeral, findings, finding);
    if key in byKey {
      var e :| e in existing && StableKey(numeral, existing.Keys, e) == key && byKey[key] == existing[e];
      assert InheritsFrom(numeral, findings, existing, finding, e);
    }
  }

  /** `write_allowlist`: the refreshed entries, in the order of their text. */
  method RefreshAllowlist<M>(numeral: Numeral, findings: set<string>, existing: map<string, M>, default: M)
    returns (entries: seq<(string, M)>)
    ensures |entries| == |findings|
    ensures forall i :: 0 <= i < |entries| ==> entries[i].0 == SortedSet(findings)[i]
    ensures forall i :: 0 <= i < |entries| ==>
      Carries(numeral, findings, existing, default, entries[i].0, entries[i].1)
  {
    hide StableKey, StableKeys, Carries;
    var byKey := ByStableKey(numeral, existing);
    var keys := StableFindingKeys(numeral, findings);
    var ordered := SortedSet(findings);
    entries := [];
    for i := 0 to |ordered|
      invariant |entries| == i
      invariant forall j :: 0 <= j < i ==> entries[j].0 == ordered[j]
      invariant forall j :: 0 <= j < i ==> Carries(numeral, findings, existing, default, entries[j].0, entries[j].1)
    {
      var finding := ordered[i];
      assert finding in ordered;
      var metadata :=
        if finding in existing then existing[finding]
        else if keys[finding] in byKey then byKey[keys[finding]]
        else default;
      CarriesByKey(numeral, findings, existing, default, finding, byKey);
      entries := entries + [(finding, metadata)];
    }
  }
}
