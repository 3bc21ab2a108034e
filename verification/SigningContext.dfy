/**
 src/app/core_execution_authority.py: the operator-owned authority, the headers it signs and the
 canonical text under the signature.
 */
module SigningContext {
  import opened Wrappers
  import opened Text
  import opened Sorting

  datatype AuthorityError = InvalidContext | InvalidScope | MissingSecret | Ambiguous | TenantNotAllowed

  /** HMAC-SHA-256 of a text under a secret, as hexadecimal text. */
  type Mac = (string, string) -> string

  /** `str.lower` */
  type Lower = string -> string

  predicate Printable(s: string) {
    forall i :: 0 <= i < |s| ==> 32 <= s[i] as int < 127
  }

  /** `_context_value`: visible ASCII text of at most 128 characters, stripped. */
  function ContextValue(value: string): Option<string> {
    var s := Strip(value);
    if s == "" || |s| > 128 || !Printable(s) then None else Some(s)
  }

  /** A value that is already what `ContextValue` makes of it. */
  predicate Normal(s: string) {
    ContextValue(s) == Some(s)
  }

  predicate Scope(values: set<string>) {
    values != {} && forall v :: v in values ==> Normal(v) && ',' !in v && '*' !in v
  }

  const VERSION := "lotus-enterprise-auth-context-v1"
  const KEY_ID := "x-enterprise-auth-key-id"
  const SERVICE := "x-service-identity"
  const ACTOR := "x-actor-id"
  const TENANT := "x-tenant-id"
  const ROLE := "x-role"
  const CORRELATION := "x-correlation-id"
  const TIMESTAMP := "x-enterprise-auth-timestamp"
  const CAPABILITIES := "x-capabilities"
  const SIGNATURE := "x-enterprise-auth-signature"
  const AUTH_PREFIX := "x-enterprise-auth-"

  /** The headers under the signature, in order. */
  const SIGNED: seq<string> := [KEY_ID, SERVICE, ACTOR, TENANT, ROLE, CORRELATION, TIMESTAMP, CAPABILITIES]

  /** Headers a caller may not supply. */
  predicate Privileged(name: string) {
    || AUTH_PREFIX <= name
    || name in {"authorization", CAPABILITIES, "x-caller-capabilities", SERVICE, ACTOR, ROLE}
  }

  /** What a signature vouches for. */
  datatype Context = Context(
    keyId: string, service: string, actor: string, tenant: string, role: string, correlation: string,
    timestamp: nat, capabilities: set<string>)

  predicate Admitted(c: Context) {
    && Normal(c.keyId) && Normal(c.service) && Normal(c.actor) && Normal(c.tenant) && Normal(c.role)
    && Normal(c.correlation) && Scope(c.capabilities)
  }

  function CapabilityText(capabilities: set<string>): string {
    Join(",", SortedSet(capabilities))
  }

  /** The signed headers of a context. */
  function Headers(c: Context): map<string, string> {
    map[
      KEY_ID := c.keyId, SERVICE := c.service, ACTOR := c.actor, ROLE := c.role, TENANT := c.tenant,
      CORRELATION := c.correlation, TIMESTAMP := NatText(c.timestamp), CAPABILITIES := CapabilityText(c.capabilities)]
  }

  /** The text `_context_signature` signs. */
  function CanonicalText(headers: map<string, string>): string
    requires forall i :: 0 <= i < |SIGNED| ==> SIGNED[i] in headers
  {
    Join("\n", [VERSION] + seq(|SIGNED|, i requires 0 <= i < |SIGNED| => headers[SIGNED[i]]))
  }

  // ----- collapsing the casing of header names -----

  /** No two header names differ only in case. */
  predicate Unambiguous(lower: Lower, headers: map<string, string>) {
    forall m, n :: m in headers && n in headers && lower(m) == lower(n) ==> m == n
  }

  function Lowered(lower: Lower, names: set<string>): set<string> {
    set n | n in names :: lower(n)
  }

  /** Each value under its lower-case name, stripped; nothing when two names collide. */
  ghost predicate Collapsed(lower: Lower, headers: map<string, string>, names: set<string>, result: map<string, string>)
    requires names <= headers.Keys
  {
    && result.Keys == Lowered(lower, names)
    && forall n :: n in names ==> result[lower(n)] == Strip(headers[n])
  }

  lemma {:induction false} FewerThanNames(lower: Lower, names: set<string>)
    ensures |Lowered(lower, names)| <= |names|
    ensures |Lowered(lower, names)| == |names| <==>
      forall m, n :: m in names && n in names && lower(m) == lower(n) ==> m == n
  {
    if names == {} {
      assert Lowered(lower, names) == {};
    } else {
      var n :| n in names;
      var rest := names - {n};
      FewerThanNames(lower, rest);
      assert names == rest + {n};
      if lower(n) in Lowered(lower, rest) {
        assert Lowered(lower, names) == Lowered(lower, rest);
        var m :| m in rest && lower(m) == lower(n);
        assert m in names && m != n;
      } else {
        assert Lowered(lower, names) == Lowered(lower, rest) + {lower(n)};
        assert forall m :: m in rest ==> lower(m) in Lowered(lower, rest);
      }
    }
  }

  /** The collapsed headers of unambiguous input. */
  ghost function CollapsedHeaders(lower: Lower, headers: map<string, string>): map<string, string> {
    map k | k in Lowered(lower, headers.Keys) :: (var n :| n in headers && lower(n) == k; Strip(headers[n]))
  }

  lemma CollapsedIsUnique(lower: Lower, headers: map<string, string>, result: map<string, string>)
    requires Collapsed(lower, headers, headers.Keys, result)
    requires Unambiguous(lower, headers)
    ensures result == CollapsedHeaders(lower, headers)
  {
    var other := CollapsedHeaders(lower, headers);
    forall k | k in result ensures k in other && other[k] == result[k] {
      var n :| n in headers && lower(n) == k;
    }
  }

  /** Collapse casing, refusing ambiguous input. */
  method CollapseCasing(lower: Lower, headers: map<string, string>) returns (r: Option<map<string, string>>)
    ensures r.Some? <==> Unambiguous(lower, headers)
    ensures r.Some? ==> r.value == CollapsedHeaders(lower, headers)
  {
    hide CollapsedHeaders;
    var result: map<string, string> := map[];
    var remaining := headers.Keys;
    while remaining != {}
      invariant remaining <= headers.Keys
      invariant result.Keys == Lowered(lower, headers.Keys - remaining)
      invariant Unambiguous(lower, headers) ==> Collapsed(lower, headers, headers.Keys - remaining, result)
      decreases remaining
    {
      var n :| n in remaining;
      assert headers.Keys - (remaining - {n}) == (headers.Keys - remaining) + {n};
      remaining := remaining - {n};
      result := result[lower(n) := Strip(headers[n])];
    }
    assert headers.Keys - {} == headers.Keys;
    FewerThanNames(lower, headers.Keys);
    assert |result| == |result.Keys| && |headers| == |headers.Keys|;
    if Unambiguous(lower, headers) {
      CollapsedIsUnique(lower, headers, result);
    }
    return if |result| != |headers| then None else Some(result);
  }

  // ----- signing -----

  function GetOrBlank(headers: map<string, string>, name: string): string {
    if name in headers then headers[name] else ""
  }

  /** The headers a caller keeps: neither privileged nor replaced by the signed ones. */
  function Kept(headers: map<string, string>): map<string, string> {
    map n | n in headers && !Privileged(n) && n != TENANT && n != CORRELATION :: headers[n]
  }

  /** What is sent: the caller's own headers, the context's, and the signature over the context's. */
  ghost predicate SignedResult(
      mac: Mac, secret: string, c: Context, collapsed: map<string, string>, result: map<string, string>)
  {
    && result.Keys == Kept(collapsed).Keys + Headers(c).Keys + {SIGNATURE}
    && (forall n :: n in Kept(collapsed) ==> result[n] == collapsed[n])
    && (forall n :: n in Headers(c) ==> result[n] == Headers(c)[n])
    && result[SIGNATURE] == mac(secret, CanonicalText(Headers(c)))
  }

  lemma OperatorNames(c: Context)
    ensures forall i :: 0 <= i < |SIGNED| ==> SIGNED[i] in Headers(c)
    ensures forall n :: n in Headers(c) ==> n == TENANT || n == CORRELATION || Privileged(n)
    ensures SIGNATURE !in Headers(c) && Privileged(SIGNATURE)
  {
    assert AUTH_PREFIX <= KEY_ID && AUTH_PREFIX <= TIMESTAMP && AUTH_PREFIX <= SIGNATURE;
    assert |SIGNATURE| == 27 && |TIMESTAMP| == 27 && SIGNATURE[18] == 's' && TIMESTAMP[18] == 't';
  }

  /** `frozenset(_context_value(v) for v in values)`, refused when empty or when a value would not split back. */
  function ScopeOf(values: set<string>): (r: Result<set<string>, AuthorityError>)
    ensures r.Success? ==> Scope(r.value)
  {
    if exists v :: v in values && ContextValue(v).None? then Failure(InvalidContext)
    else
      var stripped := set v | v in values :: ContextValue(v).value;
      if stripped == {} || exists v :: v in stripped && (',' in v || '*' in v) then Failure(InvalidScope)
      else
        assert forall v :: v in stripped ==> Normal(v) by {
          forall v | v in values ensures ContextValue(ContextValue(v).value) == ContextValue(v) {
            StrippedIsNormal(v);
          }
        }
        Success(stripped)
  }

  lemma StrippedIsNormal(value: string)
    requires ContextValue(value).Some?
    ensures Normal(ContextValue(value).value)
  {
    StripTwice(value);
  }

  lemma StripTwice(s: string)
    ensures Strip(Strip(s)) == Strip(s)
  {
    var l := LStrip(s);
    if Strip(s) != "" {
      assert Strip(s)[0] == l[0];
      StripVisible(Strip(s));
    }
  }

  class CoreExecutionAuthority {
    var keyId: string
    var secret: string
    var service: string
    var actor: string
    var role: string
    var tenants: set<string>
    var capabilities: set<string>

    constructor (keyId: string, secret: string, service: string, actor: string, role: string,
                 tenants: set<string>, capabilities: set<string>)
      ensures this.keyId == keyId && this.secret == secret && this.service == service && this.actor == actor
      ensures this.role == role && this.tenants == tenants && this.capabilities == capabilities
    {
      this.keyId, this.secret, this.service, this.actor := keyId, secret, service, actor;
      this.role, this.tenants, this.capabilities := role, tenants, capabilities;
    }

    ghost predicate Valid()
      reads this
    {
      && Normal(keyId) && Normal(service) && Normal(actor) && Normal(role)
      && Scope(tenants) && Scope(capabilities)
      && secret != "" && Strip(secret) == secret
    }

    /** Why the fields as given are refused, if they are. */
    function Flaw(): Option<AuthorityError>
      reads this
    {
      if ContextValue(keyId).None? || ContextValue(service).None? || ContextValue(actor).None?
         || ContextValue(role).None? then Some(InvalidContext)
      else if ScopeOf(tenants).Failure? then Some(ScopeOf(tenants).error)
      else if ScopeOf(capabilities).Failure? then Some(ScopeOf(capabilities).error)
      else if Strip(secret) == "" then Some(MissingSecret)
      else None
    }

    /** `__post_init__`: every field is reset to its normal form, or the object is refused. */
    method PostInit() returns (error: Option<AuthorityError>)
      modifies this
      ensures error == old(Flaw())
      ensures error.None? ==> Valid()
      ensures error.None? ==>
        && Some(keyId) == ContextValue(old(keyId)) && Some(service) == ContextValue(old(service))
        && Some(actor) == ContextValue(old(actor)) && Some(role) == ContextValue(old(role))
        && Success(tenants) == ScopeOf(old(tenants)) && Success(capabilities) == ScopeOf(old(capabilities))
        && secret == Strip(old(secret))
    {
      hide ContextValue, Strip;
      if ContextValue(keyId).None? || ContextValue(service).None? || ContextValue(actor).None?
         || ContextValue(role).None?
      {
        return Some(InvalidContext);
      }
      StrippedIsNormal(keyId);
      StrippedIsNormal(service);
      StrippedIsNormal(actor);
      StrippedIsNormal(role);
      keyId, service := ContextValue(keyId).value, ContextValue(service).value;
      actor, role := ContextValue(actor).value, ContextValue(role).value;
      var admitted := ScopeOf(tenants);
      if admitted.Failure? {
        return Some(admitted.error);
      }
      tenants := admitted.value;
      var granted := ScopeOf(capabilities);
      if granted.Failure? {
        return Some(granted.error);
      }
      capabilities := granted.value;
      if Strip(secret) == "" {
        return Some(MissingSecret);
      }
      StripTwice(secret);
      secret := Strip(secret);
      return None;
    }

    /** The context signed for a tenant and a correlation at a time. */
    function ContextFor(tenant: string, correlation: string, now: nat): Context
      reads this
    {
      Context(keyId, service, actor, tenant, role, correlation, now, capabilities)
    }

    /** Why a set of headers is not signed, if it is not. */
    ghost function Refusal(lower: Lower, headers: map<string, string>): Option<AuthorityError>
      reads this
    {
      if !Unambiguous(lower, headers) then Some(Ambiguous)
      else
        var collapsed := CollapsedHeaders(lower, headers);
        var tenant := ContextValue(GetOrBlank(collapsed, TENANT));
        if tenant.None? then Some(InvalidContext)
        else if tenant.value !in tenants then Some(TenantNotAllowed)
        else if ContextValue(GetOrBlank(collapsed, CORRELATION)).None? then Some(InvalidContext)
        else None
    }

    /** `sign` */
    method Sign(mac: Mac, lower: Lower, headers: map<string, string>, now: nat)
      returns (r: Result<map<string, string>, AuthorityError>)
      requires Valid()
      ensures r.Failure? <==> Refusal(lower, headers).Some?
      ensures r.Failure? ==> Refusal(lower, headers) == Some(r.error)
      ensures r.Success? ==>
        var collapsed := CollapsedHeaders(lower, headers);
        var tenant := ContextValue(GetOrBlank(collapsed, TENANT));
        var correlation := ContextValue(GetOrBlank(collapsed, CORRELATION));
        && tenant.Some? && correlation.Some? && tenant.value in tenants
        && SignedResult(mac, secret, ContextFor(tenant.value, correlation.value, now), collapsed, r.value)
        && Admitted(ContextFor(tenant.value, correlation.value, now))
    {
      hide CollapsedHeaders, ContextValue;
      var attempt := CollapseCasing(lower, headers);
      if attempt.None? {
        return Failure(Ambiguous);
      }
      var collapsed := attempt.value;
      var tenant := ContextValue(GetOrBlank(collapsed, TENANT));
      if tenant.None? {
        return Failure(InvalidContext);
      }
      if tenant.value !in tenants {
        return Failure(TenantNotAllowed);
      }
      var correlation := ContextValue(GetOrBlank(collapsed, CORRELATION));
      if correlation.None? {
        return Failure(InvalidContext);
      }
      StrippedIsNormal(GetOrBlank(collapsed, TENANT));
      StrippedIsNormal(GetOrBlank(collapsed, CORRELATION));
      var result := DropPrivileged(collapsed);
      var context := ContextFor(tenant.value, correlation.value, now);
      result := Complete(mac, secret, context, collapsed, result);
      return Success(result);
    }
  }

  /** Deletes the privileged names one by one from a snapshot of the names. */
  method DropPrivileged(headers: map<string, string>) returns (result: map<string, string>)
    ensures result == map n | n in headers && !Privileged(n) :: headers[n]
  {
    hide Privileged;
    result := headers;
    var remaining := headers.Keys;
    while remaining != {}
      invariant remaining <= headers.Keys
      invariant result == map n | n in headers && (n in remaining || !Privileged(n)) :: headers[n]
      decreases remaining
    {
      var name :| name in remaining;
      remaining := remaining - {name};
      if Privileged(name) {
        result := result - {name};
      }
    }
  }

  /** Adds the signed headers and the signature over them. */
  method Complete(mac: Mac, secret: string, c: Context, collapsed: map<string, string>, own: map<string, string>)
    returns (result: map<string, string>)
    requires own == map n | n in collapsed && !Privileged(n) :: collapsed[n]
    ensures SignedResult(mac, secret, c, collapsed, result)
  {
    OperatorNames(c);
    hide Privileged, CapabilityText;
    result := own + Headers(c);
    SameCanonicalText(result, c);
    result := result[SIGNATURE := mac(secret, CanonicalText(result))];
  }

  lemma SameCanonicalText(headers: map<string, string>, c: Context)
    requires Headers(c).Keys <= headers.Keys && forall n :: n in Headers(c) ==> headers[n] == Headers(c)[n]
    ensures forall i :: 0 <= i < |SIGNED| ==> SIGNED[i] in headers && SIGNED[i] in Headers(c)
    ensures CanonicalText(headers) == CanonicalText(Headers(c))
  {
    OperatorNames(c);
    hide Headers, Join;
    assert seq(|SIGNED|, i requires 0 <= i < |SIGNED| => headers[SIGNED[i]])
      == seq(|SIGNED|, i requires 0 <= i < |SIGNED| => Headers(c)[SIGNED[i]]);
  }
}
