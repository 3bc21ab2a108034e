/**
 What the signature vouches for: the canonical text says every signed field and nothing else, and no
 header a caller supplied can take the place of one the operator owns.
 */
module SigningLaws {
  import opened Text
  import opened Sorting
  import opened SigningContext

  // ----- separators never occur inside fields -----

  lemma NormalHasNoNewline(s: string)
    requires Normal(s)
    ensures '\n' !in s && s != ""
  {
    hide Strip;
    assert forall i :: 0 <= i < |s| ==> s[i] != '\n';
  }

  lemma DigitsHaveNoNewline(n: nat)
    ensures '\n' !in NatText(n)
  {
    var s := NatText(n);
    assert forall i :: 0 <= i < |s| ==> IsDigit(s[i]);
  }

  lemma {:induction false} JoinAvoids(parts: seq<string>, c: char)
    requires c != ',' && forall i :: 0 <= i < |parts| ==> c !in parts[i]
    ensures c !in Join(",", parts)
  {
    if |parts| > 1 {
      JoinAvoids(parts[1..], c);
    }
  }

  lemma CapabilitiesHaveNoNewline(capabilities: set<string>)
    requires Scope(capabilities)
    ensures '\n' !in CapabilityText(capabilities)
  {
    hide Normal;
    var parts := SortedSet(capabilities);
    forall i | 0 <= i < |parts| ensures '\n' !in parts[i] {
      assert parts[i] in parts;
      NormalHasNoNewline(parts[i]);
    }
    JoinAvoids(parts, '\n');
  }

  /** Splitting the last field on commas gives the capabilities back. */
  lemma CapabilitiesSplit(capabilities: set<string>)
    requires Scope(capabilities)
    ensures Split(CapabilityText(capabilities), ',') == SortedSet(capabilities)
    ensures (set v | v in Split(CapabilityText(capabilities), ',')) == capabilities
  {
    hide Normal, Split, Join;
    var parts := SortedSet(capabilities);
    assert |parts| > 0;
    assert parts != [] && forall f :: f in parts ==> ',' !in f;
    SplitJoin(parts, ',');
    forall v ensures v in parts <==> v in capabilities {}
  }

  // ----- the canonical text -----

  /** The fields of the canonical text, in order. */
  function Fields(c: Context): seq<string> {
    [VERSION, c.keyId, c.service, c.actor, c.tenant, c.role, c.correlation, NatText(c.timestamp),
     CapabilityText(c.capabilities)]
  }

  lemma HeaderValues(c: Context)
    ensures Headers(c)[KEY_ID] == c.keyId && Headers(c)[SERVICE] == c.service && Headers(c)[ACTOR] == c.actor
    ensures Headers(c)[TENANT] == c.tenant && Headers(c)[ROLE] == c.role && Headers(c)[CORRELATION] == c.correlation
    ensures Headers(c)[TIMESTAMP] == NatText(c.timestamp)
    ensures Headers(c)[CAPABILITIES] == CapabilityText(c.capabilities)
  {
    hide NatText, CapabilityText;
    assert |KEY_ID| == 24 && |SERVICE| == 18 && |ACTOR| == 10 && |TENANT| == 11 && |ROLE| == 6;
    assert |CORRELATION| == 16 && |TIMESTAMP| == 27 && |CAPABILITIES| == 14;
  }

  lemma TextOfFields(c: Context)
    ensures forall i :: 0 <= i < |SIGNED| ==> SIGNED[i] in Headers(c)
    ensures CanonicalText(Headers(c)) == Join("\n", Fields(c))
  {
    OperatorNames(c);
    HeaderValues(c);
    hide Join, Headers, NatText, CapabilityText;
    var values := seq(|SIGNED|, i requires 0 <= i < |SIGNED| => Headers(c)[SIGNED[i]]);
    assert values == [c.keyId, c.service, c.actor, c.tenant, c.role, c.correlation, NatText(c.timestamp),
      CapabilityText(c.capabilities)];
    assert [VERSION] + values == Fields(c);
  }

  /** The text signed for a context. */
  function SignedText(c: Context): string {
    OperatorNames(c);
    CanonicalText(Headers(c))
  }

  lemma VersionHasNoNewline()
    ensures '\n' !in VERSION
  {
    forall i | 0 <= i < |VERSION| ensures VERSION[i] != '\n' {}
  }

  lemma FieldsHaveNoNewline(c: Context)
    requires Admitted(c)
    ensures forall f <- Fields(c) :: '\n' !in f
  {
    hide Normal, NatText, CapabilityText, Scope;
    VersionHasNoNewline();
    NormalHasNoNewline(c.keyId);
    NormalHasNoNewline(c.service);
    NormalHasNoNewline(c.actor);
    NormalHasNoNewline(c.tenant);
    NormalHasNoNewline(c.role);
    NormalHasNoNewline(c.correlation);
    DigitsHaveNoNewline(c.timestamp);
    CapabilitiesHaveNoNewline(c.capabilities);
    hide VERSION;
    forall i | 0 <= i < |Fields(c)| ensures '\n' !in Fields(c)[i] {}
  }

  /** Splitting the canonical text on newlines gives every signed field back, in order. */
  lemma CanonicalTextSplits(c: Context)
    requires Admitted(c)
    ensures Split(SignedText(c), '\n') == Fields(c)
  {
    TextOfFields(c);
    FieldsHaveNoNewline(c);
    hide Join, Split, Headers, NatText, CapabilityText, Admitted;
    SplitJoin(Fields(c), '\n');
  }

  /** Equal canonical texts come only from equal contexts, capability sets included. */
  lemma UniquelyDecodable(c: Context, d: Context)
    requires Admitted(c) && Admitted(d)
    requires SignedText(c) == SignedText(d)
    ensures c == d
  {
    CanonicalTextSplits(c);
    CanonicalTextSplits(d);
    hide SignedText, NatText, CapabilityText, Split, Normal;
    assert Fields(c) == Fields(d);
    assert Fields(c)[1] == Fields(d)[1] && Fields(c)[2] == Fields(d)[2] && Fields(c)[3] == Fields(d)[3];
    assert Fields(c)[4] == Fields(d)[4] && Fields(c)[5] == Fields(d)[5] && Fields(c)[6] == Fields(d)[6];
    assert Fields(c)[7] == Fields(d)[7] && Fields(c)[8] == Fields(d)[8];
    NatTextInjective(c.timestamp, d.timestamp);
    CapabilitiesSplit(c.capabilities);
    CapabilitiesSplit(d.capabilities);
  }

  // ----- what is sent -----

  /** The signature covers the headers as sent: computing it again over them gives the same value. */
  lemma SignatureCoversWhatIsSent(
      mac: Mac, secret: string, c: Context, collapsed: map<string, string>, result: map<string, string>)
    requires SignedResult(mac, secret, c, collapsed, result)
    ensures forall i :: 0 <= i < |SIGNED| ==> SIGNED[i] in result
    ensures result[SIGNATURE] == mac(secret, CanonicalText(result))
  {
    SameCanonicalText(result, c);
  }

  /** Headers a caller may not supply carry the operator's values, or are not sent at all. */
  lemma PrivilegedAreTheOperators(
      mac: Mac, secret: string, c: Context, collapsed: map<string, string>, result: map<string, string>, name: string)
    requires SignedResult(mac, secret, c, collapsed, result) && Privileged(name)
    ensures name in result <==> name in Headers(c) || name == SIGNATURE
    ensures name in Headers(c) ==> result[name] == Headers(c)[name]
  {
    OperatorNames(c);
    hide Headers, Privileged, CanonicalText;
  }

  /** Two callers in one context are signed alike, and what they sent beside it never shows in the signature. */
  lemma CallerHeadersDoNotMatter(
      mac: Mac, secret: string, c: Context, mine: map<string, string>, yours: map<string, string>,
      sent: map<string, string>, other: map<string, string>)
    requires SignedResult(mac, secret, c, mine, sent) && SignedResult(mac, secret, c, yours, other)
    ensures sent[SIGNATURE] == other[SIGNATURE]
    ensures Kept(mine) == Kept(yours) ==> sent == other
  {
    OperatorNames(c);
    hide Headers, Privileged, CanonicalText;
    if Kept(mine) == Kept(yours) {
      forall n | n in sent ensures n in other && sent[n] == other[n] {
        if n in Kept(mine) {
          assert sent[n] == Kept(mine)[n] && other[n] == Kept(yours)[n];
        }
      }
      assert sent.Keys == other.Keys;
    }
  }

  /** Under one secret, equal signatures are on equal contexts, as long as the MAC does not collide. */
  lemma SignatureBindsContext(
      mac: Mac, secret: string, c: Context, d: Context,
      mine: map<string, string>, yours: map<string, string>, sent: map<string, string>, other: map<string, string>)
    requires Admitted(c) && Admitted(d)
    requires SignedResult(mac, secret, c, mine, sent) && SignedResult(mac, secret, d, yours, other)
    requires forall s, t :: mac(secret, s) == mac(secret, t) ==> s == t
    ensures sent[SIGNATURE] == other[SIGNATURE] <==> c == d
  {
    OperatorNames(c);
    OperatorNames(d);
    hide Headers, CanonicalText, Admitted, Kept;
    if sent[SIGNATURE] == other[SIGNATURE] {
      UniquelyDecodable(c, d);
    }
  }
}
