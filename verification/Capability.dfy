/** Capability tokens (src/capability.ts): the glob comparison lifted over delegation chains of any length. */
module Capability {
  import opened Prelude
  import opened Glob
  import opened GlobSubset

  // ---------------------------------------------------------------------------
  // Scopes
  // ---------------------------------------------------------------------------

  /** `maxDelegations` of a scope is signed with the token; nothing else reads it. */
  datatype Scope = Scope(pathGlob: JsString, methods: Option<seq<string>>, maxDelegations: Option<int>)

  predicate ScopeSubset(child: Scope, parent: Scope) {
    && GlobIsSubset(child.pathGlob, parent.pathGlob)
    && (parent.methods.Some? ==>
          child.methods.Some? && forall m | m in child.methods.value :: m in parent.methods.value)
  }

  method ScopeIsSubset(child: Scope, parent: Scope) returns (subset: bool)
    ensures subset <==> ScopeSubset(child, parent)
  {
    var globOk := PathGlobIsSubset(child.pathGlob, parent.pathGlob);
    if !globOk {
      return false;
    }
    if parent.methods.Some? {
      if child.methods.None? {
        return false;
      }
      for i := 0 to |child.methods.value|
        invariant forall j | 0 <= j < i :: child.methods.value[j] in parent.methods.value
      {
        if child.methods.value[i] !in parent.methods.value {
          return false;
        }
      }
    }
    return true;
  }

  predicate Covered(child: Scope, parents: seq<Scope>) {
    exists p | p in parents :: ScopeSubset(child, p)
  }

  predicate ScopesSubset(child: seq<Scope>, parent: seq<Scope>) {
    forall c | c in child :: Covered(c, parent)
  }

  method ScopesAreSubset(childScopes: seq<Scope>, parentScopes: seq<Scope>) returns (subset: bool)
    ensures subset <==> ScopesSubset(childScopes, parentScopes)
  {
    for i := 0 to |childScopes|
      invariant forall j | 0 <= j < i :: Covered(childScopes[j], parentScopes)
    {
      var covered := false;
      var k := 0;
      while k < |parentScopes| && !covered
        invariant 0 <= k <= |parentScopes|
        invariant covered <==> exists j | 0 <= j < k :: ScopeSubset(childScopes[i], parentScopes[j])
      {
        covered := ScopeIsSubset(childScopes[i], parentScopes[k]);
        k := k + 1;
      }
      if !covered {
        assert childScopes[i] in childScopes && !Covered(childScopes[i], parentScopes);
        return false;
      }
    }
    return true;
  }

  lemma ScopesSubsetReflexive(scopes: seq<Scope>)
    ensures ScopesSubset(scopes, scopes)
  {
    forall c | c in scopes
      ensures Covered(c, scopes)
    {
      SubsetReflexive(Split(c.pathGlob));
      assert ScopeSubset(c, c);
    }
  }

  lemma ScopesSubsetTransitive(a: seq<Scope>, b: seq<Scope>, c: seq<Scope>)
    requires ScopesSubset(a, b) && ScopesSubset(b, c)
    ensures ScopesSubset(a, c)
  {
    forall x | x in a
      ensures Covered(x, c)
    {
      var y :| y in b && ScopeSubset(x, y);
      var z :| z in c && ScopeSubset(y, z);
      SubsetTransitive(Split(x.pathGlob), Split(y.pathGlob), Split(z.pathGlob));
      assert ScopeSubset(x, z);
    }
  }

  // ---------------------------------------------------------------------------
  // Tokens and chains
  // ---------------------------------------------------------------------------

  datatype CapabilityToken = CapabilityToken(
    id: string, issuer: string, subject: string, scopes: seq<Scope>, issuedAt: int, expiresAt: int,
    delegationDepth: int, parentTokenId: Option<string>, maxDelegations: Option<int>, keyId: string, signature: string)

  /** What the verifier cannot compute itself. `signed(t, s, k)` says that `s` is a signature over the
      canonical form of `t`, its signature field left out, under public key `k`; `upper` is `toUpperCase`. */
  datatype Oracle = Oracle(getPublicKey: string -> Option<string>, signed: (CapabilityToken, string, string) -> bool, upper: string -> string)

  datatype ChainFault =
    | EmptyChain | RootDepth
    | IssuerMismatch(at: nat) | ParentIdMismatch(at: nat) | DepthMismatch(at: nat)
    | NoFurtherDelegation(at: nat) | ExpiryExceeds(at: nat) | ScopesExceed(at: nat)
    | Expired(at: nat) | NoPublicKey(at: nat) | InvalidSignature(at: nat)
    | LeafDoesNotCover

  function Unsigned(t: CapabilityToken): CapabilityToken { t.(signature := "") }

  /** `getPublicKey` yields a usable key: neither `null` nor the empty string. */
  predicate HasKey(o: Oracle, id: string) {
    o.getPublicKey(id).Some? && o.getPublicKey(id).value != ""
  }

  /** The link between a token and its predecessor. */
  ghost predicate LinkOk(prev: CapabilityToken, t: CapabilityToken) {
    && t.issuer == prev.subject
    && t.parentTokenId == Some(prev.id)
    && t.delegationDepth == prev.delegationDepth + 1
    && (prev.maxDelegations.Some? ==> prev.maxDelegations.value > 0)
    && t.expiresAt <= prev.expiresAt
    && ScopesSubset(t.scopes, prev.scopes)
  }

  ghost predicate TokenOk(t: CapabilityToken, o: Oracle, now: int) {
    && now < t.expiresAt
    && HasKey(o, t.issuer)
    && o.signed(Unsigned(t), t.signature, o.getPublicKey(t.issuer).value)
  }

  ghost predicate ChainOk(chain: seq<CapabilityToken>, o: Oracle, now: int) {
    && chain != []
    && chain[0].delegationDepth == 0
    && (forall i | 0 < i < |chain| :: LinkOk(chain[i - 1], chain[i]))
    && (forall i | 0 <= i < |chain| :: TokenOk(chain[i], o, now))
  }

  /** The first check of token `i` that fails, in the verifier's order. */
  ghost predicate FailsAt(chain: seq<CapabilityToken>, i: nat, o: Oracle, now: int, r: ChainFault)
    requires i < |chain|
  {
    var t := chain[i];
    if i == 0 && t.delegationDepth != 0 then r == RootDepth
    else if i > 0 && t.issuer != chain[i - 1].subject then r == IssuerMismatch(i)
    else if i > 0 && t.parentTokenId != Some(chain[i - 1].id) then r == ParentIdMismatch(i)
    else if i > 0 && t.delegationDepth != chain[i - 1].delegationDepth + 1 then r == DepthMismatch(i)
    else if i > 0 && chain[i - 1].maxDelegations.Some? && chain[i - 1].maxDelegations.value <= 0 then r == NoFurtherDelegation(i - 1)
    else if i > 0 && t.expiresAt > chain[i - 1].expiresAt then r == ExpiryExceeds(i)
    else if i > 0 && !ScopesSubset(t.scopes, chain[i - 1].scopes) then r == ScopesExceed(i)
    else if now >= t.expiresAt then r == Expired(i)
    else if !HasKey(o, t.issuer) then r == NoPublicKey(i)
    else !o.signed(Unsigned(t), t.signature, o.getPublicKey(t.issuer).value) && r == InvalidSignature(i)
  }

  /** A scope that lets `path` through: unrestricted methods, or a method given and listed. */
  predicate ScopeGrants(s: Scope, path: JsString, requested: Option<string>, upper: string -> string) {
    && Matches(Tokens(s.pathGlob), path)
    && (s.methods.None? || (requested.Some? && upper(requested.value) in s.methods.value))
  }

  predicate Grants(t: CapabilityToken, path: JsString, requested: Option<string>, upper: string -> string) {
    exists s | s in t.scopes :: ScopeGrants(s, path, requested, upper)
  }

  method TokenMatchesScope(token: CapabilityToken, path: JsString, requested: Option<string>, upper: string -> string)
    returns (granted: bool)
    ensures granted <==> Grants(token, path, requested, upper)
  {
    for i := 0 to |token.scopes|
      invariant forall j | 0 <= j < i :: !ScopeGrants(token.scopes[j], path, requested, upper)
    {
      var scope := token.scopes[i];
      var matched := MatchGlob(scope.pathGlob, path);
      if !matched {
        continue;
      }
      if scope.methods.None? {
        assert ScopeGrants(scope, path, requested, upper);
        return true;
      }
      if requested.Some? && upper(requested.value) in scope.methods.value {
        assert ScopeGrants(scope, path, requested, upper);
        return true;
      }
    }
    return false;
  }

  method VerifyCapabilityChain(chain: seq<CapabilityToken>, o: Oracle, requiredPath: Option<JsString>, requiredMethod: Option<string>, now: int)
    returns (r: Result<CapabilityToken, ChainFault>)
    ensures r.Ok? <==> ChainOk(chain, o, now)
                       && (requiredPath.Some? ==> Grants(chain[|chain| - 1], requiredPath.value, requiredMethod, o.upper))
    ensures r.Ok? ==> r.value == chain[|chain| - 1]
    ensures chain == [] ==> r == Err(EmptyChain)
    ensures r.Err? && chain != [] ==>
              || (ChainOk(chain, o, now) && r.error == LeafDoesNotCover)
              || exists i: nat | i < |chain| :: FailsAt(chain, i, o, now, r.error) && (i > 0 ==> ChainOk(chain[..i], o, now))
  {
    if |chain| == 0 {
      return Err(EmptyChain);
    }
    for i := 0 to |chain|
      invariant i > 0 ==> ChainOk(chain[..i], o, now)
    {
      var token := chain[i];
      if i == 0 && token.delegationDepth != 0 {
        assert FailsAt(chain, i, o, now, RootDepth);
        return Err(RootDepth);
      }
      if i > 0 {
        var prev := chain[i - 1];
        var fault: Option<ChainFault> := None;
        if token.issuer != prev.subject {
          fault := Some(IssuerMismatch(i));
        } else if token.parentTokenId != Some(prev.id) {
          fault := Some(ParentIdMismatch(i));
        } else if token.delegationDepth != prev.delegationDepth + 1 {
          fault := Some(DepthMismatch(i));
        } else if prev.maxDelegations.Some? && prev.maxDelegations.value <= 0 {
          fault := Some(NoFurtherDelegation(i - 1));
        } else if token.expiresAt > prev.expiresAt {
          fault := Some(ExpiryExceeds(i));
        } else {
          var subset := ScopesAreSubset(token.scopes, prev.scopes);
          if !subset {
            fault := Some(ScopesExceed(i));
          }
        }
        if fault.Some? {
          assert FailsAt(chain, i, o, now, fault.value);
          assert !LinkOk(prev, token);
          return Err(fault.value);
        }
        assert LinkOk(prev, token);
      }
      if now >= token.expiresAt {
        assert FailsAt(chain, i, o, now, Expired(i));
        return Err(Expired(i));
      }
      var issuerPub := o.getPublicKey(token.issuer);
      if issuerPub.None? || issuerPub.value == "" {
        assert FailsAt(chain, i, o, now, NoPublicKey(i));
        return Err(NoPublicKey(i));
      }
      if !o.signed(Unsigned(token), token.signature, issuerPub.value) {
        assert FailsAt(chain, i, o, now, InvalidSignature(i));
        return Err(InvalidSignature(i));
      }
      assert TokenOk(token, o, now);
      assert chain[..i + 1][..i] == chain[..i];
    }
    assert chain[..|chain|] == chain;
    var leaf := chain[|chain| - 1];
    if requiredPath.Some? {
      var covers := TokenMatchesScope(leaf, requiredPath.value, requiredMethod, o.upper);
      if !covers {
        return Err(LeafDoesNotCover);
      }
    }
    return Ok(leaf);
  }

  // ---------------------------------------------------------------------------
  // What acceptance means
  // ---------------------------------------------------------------------------

  /** Token `i` of a chain, field by field. */
  ghost predicate Stands(chain: seq<CapabilityToken>, i: nat, o: Oracle, now: int)
    requires i < |chain|
  {
    var t := chain[i];
    && t.delegationDepth == i
    && now < t.expiresAt
    && (i > 0 ==>
          var prev := chain[i - 1];
          && t.issuer == prev.subject && t.parentTokenId == Some(prev.id)
          && t.expiresAt <= prev.expiresAt && !(prev.maxDelegations.Some? && prev.maxDelegations.value <= 0)
          && forall s | s in t.scopes :: WithinOne(s, prev.scopes))
    && var key := o.getPublicKey(t.issuer);
       key.Some? && key.value != "" && o.signed(t.(signature := ""), t.signature, key.value)
  }

  /** Some parent scope has the child's paths by the glob comparison, and all of its methods or no restriction. */
  ghost predicate WithinOne(child: Scope, parents: seq<Scope>) {
    exists p | p in parents ::
      && GlobIsSubset(child.pathGlob, p.pathGlob)
      && (p.methods == None || (child.methods.Some? && forall m | m in child.methods.value :: m in p.methods.value))
  }

  /** A chain is accepted exactly when every token stands. */
  lemma AcceptedExactly(chain: seq<CapabilityToken>, o: Oracle, now: int)
    ensures ChainOk(chain, o, now) <==> chain != [] && forall i | 0 <= i < |chain| :: Stands(chain, i, o, now)
  {
    if ChainOk(chain, o, now) {
      forall i | 0 <= i < |chain|
        ensures Stands(chain, i, o, now)
      {
        DepthIsIndex(chain, o, now, i);
        assert TokenOk(chain[i], o, now);
        if i > 0 {
          assert LinkOk(chain[i - 1], chain[i]);
          ScopesWithin(chain[i].scopes, chain[i - 1].scopes);
        }
      }
    }
    if chain != [] && forall i | 0 <= i < |chain| :: Stands(chain, i, o, now) {
      forall i | 0 <= i < |chain|
        ensures TokenOk(chain[i], o, now) && (i > 0 ==> LinkOk(chain[i - 1], chain[i]))
      {
        assert Stands(chain, i, o, now);
        if i > 0 {
          assert Stands(chain, i - 1, o, now);
          ScopesWithin(chain[i].scopes, chain[i - 1].scopes);
        }
      }
      assert Stands(chain, 0, o, now);
    }
  }

  lemma ScopesWithin(child: seq<Scope>, parent: seq<Scope>)
    ensures ScopesSubset(child, parent) <==> forall s | s in child :: WithinOne(s, parent)
  {
    forall s
      ensures Covered(s, parent) <==> WithinOne(s, parent)
    {
      if p :| p in parent && ScopeSubset(s, p) {
        assert WithinOne(s, parent);
      }
      if WithinOne(s, parent) {
        var p :| p in parent && GlobIsSubset(s.pathGlob, p.pathGlob)
                 && (p.methods == None || (s.methods.Some? && forall m | m in s.methods.value :: m in p.methods.value));
        assert ScopeSubset(s, p);
      }
    }
  }

  /** An accepted chain fails no check at any index, and a refused one fails some. */
  lemma AcceptedHasNoFault(chain: seq<CapabilityToken>, o: Oracle, now: int)
    requires chain != []
    ensures ChainOk(chain, o, now) <==> forall i: nat, r | i < |chain| :: !FailsAt(chain, i, o, now, r)
  {
    if ChainOk(chain, o, now) {
      forall i: nat, r | i < |chain|
        ensures !FailsAt(chain, i, o, now, r)
      {
        assert TokenOk(chain[i], o, now) && (i > 0 ==> LinkOk(chain[i - 1], chain[i]));
      }
    } else {
      var i: nat :| i < |chain| && !((i == 0 ==> chain[0].delegationDepth == 0)
                                && (i > 0 ==> LinkOk(chain[i - 1], chain[i])) && TokenOk(chain[i], o, now));
      var r := FaultOf(chain, i, o, now);
      assert FailsAt(chain, i, o, now, r);
    }
  }

  ghost function FaultOf(chain: seq<CapabilityToken>, i: nat, o: Oracle, now: int): (r: ChainFault)
    requires i < |chain|
    requires !((i == 0 ==> chain[0].delegationDepth == 0) && (i > 0 ==> LinkOk(chain[i - 1], chain[i])) && TokenOk(chain[i], o, now))
    ensures FailsAt(chain, i, o, now, r)
  {
    var t := chain[i];
    if i == 0 && t.delegationDepth != 0 then RootDepth
    else if i > 0 && t.issuer != chain[i - 1].subject then IssuerMismatch(i)
    else if i > 0 && t.parentTokenId != Some(chain[i - 1].id) then ParentIdMismatch(i)
    else if i > 0 && t.delegationDepth != chain[i - 1].delegationDepth + 1 then DepthMismatch(i)
    else if i > 0 && chain[i - 1].maxDelegations.Some? && chain[i - 1].maxDelegations.value <= 0 then NoFurtherDelegation(i - 1)
    else if i > 0 && t.expiresAt > chain[i - 1].expiresAt then ExpiryExceeds(i)
    else if i > 0 && !ScopesSubset(t.scopes, chain[i - 1].scopes) then ScopesExceed(i)
    else if now >= t.expiresAt then Expired(i)
    else if !HasKey(o, t.issuer) then NoPublicKey(i)
    else InvalidSignature(i)
  }

  /** What each fault says of token `i`. */
  ghost predicate Violates(chain: seq<CapabilityToken>, i: nat, o: Oracle, now: int, f: ChainFault)
    requires i < |chain|
  {
    var t := chain[i];
    match f
    case RootDepth => i == 0 && t.delegationDepth != 0
    case IssuerMismatch(at) => at == i > 0 && t.issuer != chain[i - 1].subject
    case ParentIdMismatch(at) => at == i > 0 && t.parentTokenId != Some(chain[i - 1].id)
    case DepthMismatch(at) => at == i > 0 && t.delegationDepth != chain[i - 1].delegationDepth + 1
    case NoFurtherDelegation(at) => at + 1 == i && chain[at].maxDelegations.Some? && chain[at].maxDelegations.value <= 0
    case ExpiryExceeds(at) => at == i > 0 && t.expiresAt > chain[i - 1].expiresAt
    case ScopesExceed(at) => at == i > 0 && exists s | s in t.scopes :: !WithinOne(s, chain[i - 1].scopes)
    case Expired(at) => at == i && now >= t.expiresAt
    case NoPublicKey(at) => at == i && o.getPublicKey(t.issuer) in {None, Some("")}
    case InvalidSignature(at) =>
      at == i && match o.getPublicKey(t.issuer) { case None => true case Some(key) => !o.signed(t.(signature := ""), t.signature, key) }
    case _ => false
  }

  /** Where in the order of checks a fault comes up. */
  function Rank(f: ChainFault): nat {
    match f
    case RootDepth => 0
    case IssuerMismatch(_) => 1
    case ParentIdMismatch(_) => 2
    case DepthMismatch(_) => 3
    case NoFurtherDelegation(_) => 4
    case ExpiryExceeds(_) => 5
    case ScopesExceed(_) => 6
    case Expired(_) => 7
    case NoPublicKey(_) => 8
    case InvalidSignature(_) => 9
    case _ => 10
  }

  /** A token is refused for the first thing that is wrong with it, and refused whenever something is. */
  lemma FaultIsFirst(chain: seq<CapabilityToken>, i: nat, o: Oracle, now: int, f: ChainFault)
    requires i < |chain|
    ensures FailsAt(chain, i, o, now, f) ==>
              Violates(chain, i, o, now, f) && forall g | Rank(g) < Rank(f) :: !Violates(chain, i, o, now, g)
    ensures Violates(chain, i, o, now, f) ==> exists r :: FailsAt(chain, i, o, now, r)
  {
    FaultIsTrue(chain, i, o, now, f);
    if Violates(chain, i, o, now, f) {
      SomethingFails(chain, i, o, now, f);
    }
    hide FailsAt;
    hide Violates;
    hide Rank;
    forall g
      ensures FailsAt(chain, i, o, now, f) && Rank(g) < Rank(f) ==> !Violates(chain, i, o, now, g)
    {
      NothingEarlier(chain, i, o, now, f, g);
    }
  }

  lemma FaultIsTrue(chain: seq<CapabilityToken>, i: nat, o: Oracle, now: int, f: ChainFault)
    requires i < |chain|
    ensures FailsAt(chain, i, o, now, f) ==> Violates(chain, i, o, now, f)
  {
    if i > 0 {
      ScopesWithin(chain[i].scopes, chain[i - 1].scopes);
    }
    hide ScopesSubset;
    hide WithinOne;
    if FailsAt(chain, i, o, now, f) {
      var key := o.getPublicKey(chain[i].issuer);
      assert f.NoPublicKey? ==> key == None || key == Some("");
      assert f.NoFurtherDelegation? ==> i > 0 && f.at == i - 1;
      assert Violates(chain, i, o, now, f);
    }
  }

  lemma SomethingFails(chain: seq<CapabilityToken>, i: nat, o: Oracle, now: int, f: ChainFault)
    requires i < |chain| && Violates(chain, i, o, now, f)
    ensures exists r :: FailsAt(chain, i, o, now, r)
  {
    if i > 0 {
      ScopesWithin(chain[i].scopes, chain[i - 1].scopes);
    }
    hide ScopesSubset;
    hide WithinOne;
    hide FailsAt;
    var r := FaultOf(chain, i, o, now);
    assert FailsAt(chain, i, o, now, r);
  }

  lemma NothingEarlier(chain: seq<CapabilityToken>, i: nat, o: Oracle, now: int, f: ChainFault, g: ChainFault)
    requires i < |chain|
    ensures FailsAt(chain, i, o, now, f) && Rank(g) < Rank(f) ==> !Violates(chain, i, o, now, g)
  {
    if i > 0 {
      ScopesWithin(chain[i].scopes, chain[i - 1].scopes);
    }
    hide ScopesSubset;
    hide WithinOne;
  }

  /** Signatures are unforgeable: what verifies under the registered key of an issuer, that issuer signed. */
  ghost predicate Unforgeable(o: Oracle, issued: string -> iset<CapabilityToken>) {
    forall id, t, s | o.getPublicKey(id).Some? && o.signed(t, s, o.getPublicKey(id).value) :: t in issued(id)
  }

  /** Every token of an accepted chain was signed by its issuer, who is the subject of the token before it. */
  lemma AcceptedWasIssued(chain: seq<CapabilityToken>, o: Oracle, now: int, issued: string -> iset<CapabilityToken>, i: nat)
    requires ChainOk(chain, o, now) && Unforgeable(o, issued) && i < |chain|
    ensures chain[i].(signature := "") in issued(chain[i].issuer)
    ensures i > 0 ==> chain[i].(signature := "") in issued(chain[i - 1].subject)
  {
    AcceptedExactly(chain, o, now);
    assert Stands(chain, i, o, now);
  }

  /** A token grants a path exactly when some scope's glob matches it and that scope either lists no methods, or the
      method asked for is given and listed in upper case. In particular a scope that lists methods grants nothing when
      no method is given. */
  lemma GrantsExactly(t: CapabilityToken, path: JsString, requested: Option<string>, upper: string -> string)
    ensures Grants(t, path, requested, upper) <==>
              exists i | 0 <= i < |t.scopes| ::
                && Matches(Tokens(t.scopes[i].pathGlob), path)
                && match t.scopes[i].methods {
                     case None => true
                     case Some(ms) => match requested { case None => false case Some(m) => upper(m) in ms }
                   }
    ensures requested == None && (forall s | s in t.scopes :: s.methods.Some?) ==> !Grants(t, path, requested, upper)
  {
    if s :| s in t.scopes && ScopeGrants(s, path, requested, upper) {
      var i :| 0 <= i < |t.scopes| && t.scopes[i] == s;
    }
    if i :| 0 <= i < |t.scopes| && ScopeGrants(t.scopes[i], path, requested, upper) {
      assert t.scopes[i] in t.scopes;
    }
  }

  // ---------------------------------------------------------------------------
  // Delegation only narrows
  // ---------------------------------------------------------------------------

  ghost predicate WellFormedScopes(t: CapabilityToken) {
    forall s | s in t.scopes :: WellFormedGlob(s.pathGlob)
  }

  lemma LinkNarrows(prev: CapabilityToken, t: CapabilityToken, path: JsString, requested: Option<string>, upper: string -> string)
    requires LinkOk(prev, t) && WellFormedScopes(prev) && WellFormedScopes(t)
    requires OneLine(path) && Grants(t, path, requested, upper)
    ensures Grants(prev, path, requested, upper)
  {
    var s :| s in t.scopes && ScopeGrants(s, path, requested, upper);
    var p :| p in prev.scopes && ScopeSubset(s, p);
    GlobSubsetNarrows(s.pathGlob, p.pathGlob, path);
    assert ScopeGrants(p, path, requested, upper);
  }

  /** Whatever the leaf of an accepted chain grants, every earlier token grants too, and none expires sooner. */
  lemma {:induction false} DelegationNarrows(chain: seq<CapabilityToken>, o: Oracle, now: int, i: nat, path: JsString, requested: Option<string>)
    requires ChainOk(chain, o, now) && i < |chain|
    requires forall t | t in chain :: WellFormedScopes(t)
    requires OneLine(path) && Grants(chain[|chain| - 1], path, requested, o.upper)
    ensures Grants(chain[i], path, requested, o.upper)
    ensures chain[|chain| - 1].expiresAt <= chain[i].expiresAt
    ensures chain[i].delegationDepth == i
    decreases |chain| - i
  {
    DepthIsIndex(chain, o, now, i);
    if i < |chain| - 1 {
      DelegationNarrows(chain, o, now, i + 1, path, requested);
      assert chain[i] in chain && chain[i + 1] in chain && LinkOk(chain[i + 1 - 1], chain[i + 1]);
      LinkNarrows(chain[i], chain[i + 1], path, requested, o.upper);
    }
  }

  lemma {:induction false} DepthIsIndex(chain: seq<CapabilityToken>, o: Oracle, now: int, i: nat)
    requires ChainOk(chain, o, now) && i < |chain|
    ensures chain[i].delegationDepth == i
  {
    if i > 0 {
      DepthIsIndex(chain, o, now, i - 1);
      assert LinkOk(chain[i - 1], chain[i]);
    }
  }

  // ---------------------------------------------------------------------------
  // Issuing and delegating
  // ---------------------------------------------------------------------------

  datatype IssueOptions = IssueOptions(issuerId: string, subject: string, scopes: seq<Scope>, ttlMs: int, maxDelegations: Option<int>, keyId: Option<string>)

  datatype DelegateOptions = DelegateOptions(delegatorId: string, newSubject: string, scopes: Option<seq<Scope>>, ttlMs: int, keyId: Option<string>)

  datatype DelegateError = NotTheSubject | ParentExpired | DelegationNotAllowed | ScopesExceedParent | TtlExceedsParent

  /** `id` is the clock and random part of the new token; `sign` signs with the issuer's private key. */
  function IssueCapabilityToken(opts: IssueOptions, now: int, id: string, sign: CapabilityToken -> string): CapabilityToken {
    var unsigned := CapabilityToken(
      id, opts.issuerId, opts.subject, opts.scopes, now, now + opts.ttlMs, 0, None,
      Some(if opts.maxDelegations.Some? then opts.maxDelegations.value else 0),
      if opts.keyId.Some? then opts.keyId.value else opts.issuerId + "-key", "");
    unsigned.(signature := sign(unsigned))
  }

  function DelegateCapabilityToken(parent: CapabilityToken, opts: DelegateOptions, now: int, id: string, sign: CapabilityToken -> string)
    : Result<CapabilityToken, DelegateError>
  {
    var scopes := if opts.scopes.Some? then opts.scopes.value else parent.scopes;
    if opts.delegatorId != parent.subject then Err(NotTheSubject)
    else if now >= parent.expiresAt then Err(ParentExpired)
    else if parent.maxDelegations.Some? && parent.maxDelegations.value <= 0 then Err(DelegationNotAllowed)
    else if !ScopesSubset(scopes, parent.scopes) then Err(ScopesExceedParent)
    else if opts.ttlMs > parent.expiresAt - now then Err(TtlExceedsParent)
    else
      var unsigned := CapabilityToken(
        id, opts.delegatorId, opts.newSubject, scopes, now, now + opts.ttlMs, parent.delegationDepth + 1, Some(parent.id),
        if parent.maxDelegations.Some? then Some(parent.maxDelegations.value - 1) else None,
        if opts.keyId.Some? then opts.keyId.value else opts.delegatorId + "-key", "");
      Ok(unsigned.(signature := sign(unsigned)))
  }

  datatype Hop = Hop(opts: DelegateOptions, at: int, id: string, sign: CapabilityToken -> string)

  /** The chain an honest holder presents after delegating hop by hop. */
  function BuildChain(root: CapabilityToken, hops: seq<Hop>): Result<seq<CapabilityToken>, DelegateError> {
    if hops == [] then Ok([root])
    else
      var before := BuildChain(root, hops[..|hops| - 1]);
      if before.Err? || before.value == [] then before
      else
        var hop := hops[|hops| - 1];
        var next := DelegateCapabilityToken(before.value[|before.value| - 1], hop.opts, hop.at, hop.id, hop.sign);
        if next.Err? then Err(next.error) else Ok(before.value + [next.value])
  }

  /** The registry holds the public half of the key `sign` signs with. */
  ghost predicate KeyRegistered(o: Oracle, issuer: string, sign: CapabilityToken -> string) {
    HasKey(o, issuer) && forall t: CapabilityToken :: o.signed(t, sign(t), o.getPublicKey(issuer).value)
  }

  /** Everything but the clock: what a chain owes to having been built honestly. */
  ghost predicate HonestChain(chain: seq<CapabilityToken>, o: Oracle) {
    && chain != []
    && chain[0].delegationDepth == 0
    && (forall i | 0 < i < |chain| :: LinkOk(chain[i - 1], chain[i]))
    && (forall i | 0 <= i < |chain| :: HasKey(o, chain[i].issuer) && o.signed(Unsigned(chain[i]), chain[i].signature, o.getPublicKey(chain[i].issuer).value))
  }

  lemma {:induction false} BuiltChainIsHonest(root: CapabilityToken, hops: seq<Hop>, o: Oracle, n: nat)
    requires HonestChain([root], o) && root.maxDelegations == Some(n)
    requires forall h | h in hops :: KeyRegistered(o, h.opts.delegatorId, h.sign)
    requires BuildChain(root, hops).Ok?
    ensures var chain := BuildChain(root, hops).value;
            && |chain| == |hops| + 1 && HonestChain(chain, o) && chain[0] == root
            && |hops| <= n && chain[|hops|].maxDelegations == Some(n - |hops|)
  {
    hide HonestChain;
    hide DelegateCapabilityToken;
    hide KeyRegistered;
    hide LinkOk;
    hide SignedByIssuer;
    if hops != [] {
      var init, hop := hops[..|hops| - 1], hops[|hops| - 1];
      assert hop in hops && forall h | h in init :: h in hops;
      BuiltChainIsHonest(root, init, o, n);
      var before := BuildChain(root, init).value;
      HopIsHonest(before[|init|], hop, o);
      HonestLonger(before, BuildChain(root, hops).value[|hops|], o);
    }
  }

  ghost predicate SignedByIssuer(t: CapabilityToken, o: Oracle) {
    HasKey(o, t.issuer) && o.signed(Unsigned(t), t.signature, o.getPublicKey(t.issuer).value)
  }

  lemma HopIsHonest(parent: CapabilityToken, hop: Hop, o: Oracle)
    requires KeyRegistered(o, hop.opts.delegatorId, hop.sign) && parent.maxDelegations.Some?
    ensures var next := DelegateCapabilityToken(parent, hop.opts, hop.at, hop.id, hop.sign);
            next.Ok? ==>
              && LinkOk(parent, next.value) && SignedByIssuer(next.value, o)
              && parent.maxDelegations.value > 0 && next.value.maxDelegations == Some(parent.maxDelegations.value - 1)
  {
    hide ScopesSubset;
    var next := DelegateCapabilityToken(parent, hop.opts, hop.at, hop.id, hop.sign);
    assert next.Ok? ==> next.value.signature == hop.sign(Unsigned(next.value));
  }

  lemma HonestLonger(chain: seq<CapabilityToken>, t: CapabilityToken, o: Oracle)
    requires HonestChain(chain, o) && LinkOk(chain[|chain| - 1], t) && SignedByIssuer(t, o)
    ensures HonestChain(chain + [t], o)
  {
    hide LinkOk;
    assert forall i | 0 <= i < |chain| :: (chain + [t])[i] == chain[i];
  }

  lemma {:induction false} LeafExpiresFirst(chain: seq<CapabilityToken>, o: Oracle, i: nat)
    requires HonestChain(chain, o) && i < |chain|
    ensures chain[|chain| - 1].expiresAt <= chain[i].expiresAt
    decreases |chain| - i
  {
    if i < |chain| - 1 {
      LeafExpiresFirst(chain, o, i + 1);
      assert LinkOk(chain[i + 1 - 1], chain[i + 1]);
    }
  }

  lemma {:induction false} LeafScopesWithinRoot(chain: seq<CapabilityToken>, o: Oracle, i: nat)
    requires HonestChain(chain, o) && i < |chain|
    ensures ScopesSubset(chain[i].scopes, chain[0].scopes)
  {
    if i == 0 {
      ScopesSubsetReflexive(chain[0].scopes);
    } else {
      LeafScopesWithinRoot(chain, o, i - 1);
      assert LinkOk(chain[i - 1], chain[i]);
      ScopesSubsetTransitive(chain[i].scopes, chain[i - 1].scopes, chain[0].scopes);
    }
  }

  /** A chain issued and re-delegated honestly is accepted at every time before its leaf expires, is no
      longer than the root allows, and its leaf stays inside the root's scopes. */
  lemma HonestDelegationVerifies(
    opts: IssueOptions, issuedAt: int, id: string, sign: CapabilityToken -> string, hops: seq<Hop>, o: Oracle, now: int)
    requires opts.maxDelegations.Some? ==> opts.maxDelegations.value >= 0
    requires KeyRegistered(o, opts.issuerId, sign)
    requires forall h | h in hops :: KeyRegistered(o, h.opts.delegatorId, h.sign)
    requires BuildChain(IssueCapabilityToken(opts, issuedAt, id, sign), hops).Ok?
    ensures var chain := BuildChain(IssueCapabilityToken(opts, issuedAt, id, sign), hops).value;
            && |chain| == |hops| + 1
            && |chain| <= (if opts.maxDelegations.Some? then opts.maxDelegations.value else 0) + 1
            && (ChainOk(chain, o, now) <==> now < chain[|chain| - 1].expiresAt)
            && ScopesSubset(chain[|chain| - 1].scopes, opts.scopes)
  {
    var root := IssueCapabilityToken(opts, issuedAt, id, sign);
    assert Unsigned(root).signature == "";
    BuiltChainIsHonest(root, hops, o, root.maxDelegations.value);
    var chain := BuildChain(root, hops).value;
    LeafScopesWithinRoot(chain, o, |hops|);
    forall i | 0 <= i < |chain|
      ensures now < chain[|chain| - 1].expiresAt ==> TokenOk(chain[i], o, now)
    {
      LeafExpiresFirst(chain, o, i);
    }
    assert ChainOk(chain, o, now) ==> TokenOk(chain[|hops|], o, now);
  }
}
