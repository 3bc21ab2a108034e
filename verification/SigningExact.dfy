/**
 What a signed request looks like, header by header (src/app/core_execution_authority.py): the names
 are written out, and so is what every field value must be.
 */
module SigningExact {
  import opened Wrappers
  import opened Text
  import opened Sorting
  import opened SigningContext
  import opened SigningLaws

  // ----- field values -----

  /** One to 128 printable ASCII characters, the first and the last not a space. */
  ghost predicate FieldValue(s: string) {
    1 <= |s| <= 128 && s[0] != ' ' && s[|s| - 1] != ' ' && forall i :: 0 <= i < |s| ==> ' ' <= s[i] <= '~'
  }

  lemma PrintableSpace(c: char)
    requires ' ' <= c <= '~'
    ensures IsSpace(c) <==> c == ' '
  {}

  /** A value is admitted exactly when it is a field value between runs of whitespace, which are taken off. */
  lemma ContextValueExactly(value: string, s: string)
    ensures ContextValue(value) == Some(s)
      <==> FieldValue(s) && exists before, after :: Surrounds(before, s, after, value)
  {
    StripExactly(value, s);
    hide Strip, IsSpace;
    if s != "" && forall i :: 0 <= i < |s| ==> ' ' <= s[i] <= '~' {
      PrintableSpace(s[0]);
      PrintableSpace(s[|s| - 1]);
      assert Printable(s);
    }
  }

  /** A scope is admitted exactly when it has values, and each is a field value without `,` and `*`. */
  lemma ScopeExactly(values: set<string>)
    ensures ScopeOf(values).Success? <==>
      values != {} && forall v :: v in values ==>
        ContextValue(v).Some? && ',' !in ContextValue(v).value && '*' !in ContextValue(v).value
    ensures ScopeOf(values).Success? ==>
      forall s :: s in ScopeOf(values).value <==> exists v :: v in values && ContextValue(v) == Some(s)
    ensures ScopeOf(values) == Failure(InvalidContext) <==> exists v :: v in values && ContextValue(v).None?
  {
    hide ContextValue;
    if forall v :: v in values ==> ContextValue(v).Some? {
      var stripped := set v | v in values :: ContextValue(v).value;
      forall v | v in values ensures ContextValue(v).value in stripped {}
    }
  }

  // ----- the headers of a request -----

  /** Every header under its lower-case name, with its value stripped; there are no others. */
  lemma CollapsedExactly(lower: Lower, headers: map<string, string>)
    requires Unambiguous(lower, headers)
    ensures forall k :: k in CollapsedHeaders(lower, headers) <==> exists n :: n in headers && lower(n) == k
    ensures forall n :: n in headers ==>
      lower(n) in CollapsedHeaders(lower, headers) && CollapsedHeaders(lower, headers)[lower(n)] == Strip(headers[n])
  {
    forall n | n in headers ensures lower(n) in Lowered(lower, headers.Keys) {}
  }

  /** The headers a caller must not decide. */
  ghost predicate OperatorOwned(name: string) {
    || "x-enterprise-auth-" <= name
    || name == "authorization" || name == "x-capabilities" || name == "x-caller-capabilities"
    || name == "x-service-identity" || name == "x-actor-id" || name == "x-role"
  }

  lemma OwnedExactly(name: string)
    ensures Privileged(name) <==> OperatorOwned(name)
  {}

  /**
   A signed request, name by name: the operator's identity and the context's tenant and correlation,
   whatever the caller sent under those names, and the caller's other headers as they were.
   */
  lemma SentExactly(
      mac: Mac, secret: string, c: Context, collapsed: map<string, string>, sent: map<string, string>)
    requires SignedResult(mac, secret, c, collapsed, sent)
    ensures {"x-enterprise-auth-key-id", "x-service-identity", "x-actor-id", "x-tenant-id", "x-role",
      "x-correlation-id", "x-enterprise-auth-timestamp", "x-capabilities", "x-enterprise-auth-signature"} <= sent.Keys
    ensures sent["x-enterprise-auth-key-id"] == c.keyId && sent["x-service-identity"] == c.service
    ensures sent["x-actor-id"] == c.actor && sent["x-tenant-id"] == c.tenant && sent["x-role"] == c.role
    ensures sent["x-correlation-id"] == c.correlation
    ensures sent["x-enterprise-auth-timestamp"] == NatText(c.timestamp)
    ensures sent["x-capabilities"] == Join(",", SortedSet(c.capabilities))
    ensures sent["x-enterprise-auth-signature"] == mac(secret, Join("\n",
      ["lotus-enterprise-auth-context-v1", c.keyId, c.service, c.actor, c.tenant, c.role, c.correlation,
       NatText(c.timestamp), Join(",", SortedSet(c.capabilities))]))
  {
    OperatorNames(c);
    HeaderValues(c);
    TextOfFields(c);
    hide Join, NatText, CanonicalText, SortedSet;
  }

  /** The caller's own authorization is never passed on. */
  lemma AuthorizationIsNeverSent(
      mac: Mac, secret: string, c: Context, collapsed: map<string, string>, sent: map<string, string>)
    requires SignedResult(mac, secret, c, collapsed, sent)
    ensures "authorization" !in sent && "x-caller-capabilities" !in sent
  {
    var authorization, claimed := "authorization", "x-caller-capabilities";
    PrivilegedAreTheOperators(mac, secret, c, collapsed, sent, authorization);
    PrivilegedAreTheOperators(mac, secret, c, collapsed, sent, claimed);
    hide Headers, CanonicalText;
    NotSigned(c);
  }

  lemma NotSigned(c: Context)
    ensures "authorization" !in Headers(c) && "authorization" != SIGNATURE
    ensures "x-caller-capabilities" !in Headers(c) && "x-caller-capabilities" != SIGNATURE
  {
    assert |"authorization"| == 13 && |"x-caller-capabilities"| == 21;
    assert |KEY_ID| == 24 && |SERVICE| == 18 && |ACTOR| == 10 && |TENANT| == 11 && |ROLE| == 6 && |SIGNATURE| == 27;
    assert |CORRELATION| == 16 && |TIMESTAMP| == 27 && |CAPABILITIES| == 14;
  }

  /** A caller's header is passed on exactly when neither the operator nor the context owns its name. */
  lemma PassedOnExactly(
      mac: Mac, secret: string, c: Context, collapsed: map<string, string>, sent: map<string, string>, name: string)
    requires SignedResult(mac, secret, c, collapsed, sent)
    requires !OperatorOwned(name) && name != "x-tenant-id" && name != "x-correlation-id"
    ensures name in sent <==> name in collapsed
    ensures name in sent ==> sent[name] == collapsed[name]
  {
    OwnedExactly(name);
    OperatorNames(c);
    hide Headers, CanonicalText, Privileged;
    assert name in collapsed <==> name in Kept(collapsed);
  }
}
