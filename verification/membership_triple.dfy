/**
 * The domain-membership triple of the IETF RATS CoRIM draft
 * (draft-ietf-rats-corim): one domain environment (the subject) linked to a
 * non-empty list of member environments (the objects), and the ordered
 * collection of such triples held by a CoMID.
 *
 * Environments are opaque here: the type parameter `E` stands for them, and
 * every validation takes the environment validator as the parameter
 * `envValid`.
 */
module MembershipTriple {
  import opened Wrappers

  /** Why one triple is invalid, in the order the checks run. */
  datatype TripleError =
    | DomainInvalid           // the domain-id environment is itself invalid
    | NoMembers               // the member list is empty
    | MemberInvalid(index: nat) // the member at `index` is the first invalid one

  /** Why a collection of triples is invalid: the first invalid triple and its own error. */
  datatype TriplesError = TripleInvalid(index: nat, cause: TripleError)

  /** A triple as a value: what a collection stores, and what a triple object holds. */
  datatype Triple<E> = Triple(domainId: E, members: seq<E>)

  // ---------------------------------------------------------------------------
  // Specification of fail-fast validation

  /** The index of the first element of `s` that fails `ok`, or `|s|` when none does. */
  function FirstFailing<T>(s: seq<T>, ok: T -> bool): (k: nat)
    ensures k <= |s|
    ensures forall j :: 0 <= j < k ==> ok(s[j])
    ensures k < |s| ==> !ok(s[k])
  {
    if s == [] then 0
    else if !ok(s[0]) then 0
    else 1 + FirstFailing(s[1..], ok)
  }

  /** The three properties of FirstFailing pin down a single index. */
  lemma FirstFailingUnique<T>(s: seq<T>, ok: T -> bool, k: nat)
    requires k <= |s|
    requires forall j :: 0 <= j < k ==> ok(s[j])
    requires k < |s| ==> !ok(s[k])
    ensures FirstFailing(s, ok) == k
  {
  }

  /** Appending one element cannot move an earlier failure; otherwise the new element decides. */
  lemma {:induction false} FirstFailingAppend<T>(s: seq<T>, x: T, ok: T -> bool)
    ensures FirstFailing(s + [x], ok) ==
      if FirstFailing(s, ok) < |s| then FirstFailing(s, ok)
      else if ok(x) then |s| + 1
      else |s|
  {
    if s != [] {
      assert (s + [x])[1..] == s[1..] + [x];
      FirstFailingAppend(s[1..], x, ok);
    }
  }

  /** Whether every element of `s` passes `ok`. */
  predicate AllPass<T>(s: seq<T>, ok: T -> bool) {
    forall j :: 0 <= j < |s| ==> ok(s[j])
  }

  /**
   * The outcome of validating one triple: the domain first, then the
   * emptiness of the member list, then the members in index order.
   */
  function TripleCheck<E>(t: Triple<E>, envValid: E -> bool): (r: Option<TripleError>)
    ensures r == None <==> envValid(t.domainId) && |t.members| >= 1 && AllPass(t.members, envValid)
    ensures !envValid(t.domainId) ==> r == Some(DomainInvalid)
    ensures envValid(t.domainId) && t.members == [] ==> r == Some(NoMembers)
    ensures r.Some? && r.value.MemberInvalid? ==>
      var k := r.value.index;
      envValid(t.domainId) && k < |t.members| && !envValid(t.members[k]) &&
      forall j :: 0 <= j < k ==> envValid(t.members[j])
    ensures forall q ::
      (envValid(t.domainId) && 0 <= q < |t.members| && !envValid(t.members[q]) &&
       forall j :: 0 <= j < q ==> envValid(t.members[j]))
      ==> r == Some(MemberInvalid(q))
  {
    if !envValid(t.domainId) then Some(DomainInvalid)
    else if |t.members| == 0 then Some(NoMembers)
    else
      var k := FirstFailing(t.members, envValid);
      if k < |t.members| then Some(MemberInvalid(k)) else None
  }

  /** Whether a triple passes validation. */
  predicate TripleOk<E>(t: Triple<E>, envValid: E -> bool) {
    TripleCheck(t, envValid) == None
  }

  /**
   * The outcome of validating a collection: the first invalid triple, with
   * its own error, or success.
   */
  function TriplesCheck<E>(s: seq<Triple<E>>, envValid: E -> bool): (r: Option<TriplesError>)
    ensures s == [] ==> r == None
    ensures r == None <==> forall j :: 0 <= j < |s| ==> TripleOk(s[j], envValid)
    ensures r.Some? ==>
      var k := r.value.index;
      k < |s| && TripleCheck(s[k], envValid) == Some(r.value.cause) &&
      forall j :: 0 <= j < k ==> TripleOk(s[j], envValid)
  {
    var ok := (t: Triple<E>) => TripleOk(t, envValid);
    var k := FirstFailing(s, ok);
    assert forall j :: 0 <= j < k ==> ok(s[j]);
    if k < |s| then Some(TripleInvalid(k, TripleCheck(s[k], envValid).value)) else None
  }

  // ---------------------------------------------------------------------------
  // Properties of validation across operations

  /** A domain error hides everything about the members, even none at all. */
  lemma DomainCheckedFirst<E>(d: E, m1: seq<E>, m2: seq<E>, envValid: E -> bool)
    requires !envValid(d)
    ensures TripleCheck(Triple(d, m1), envValid) == TripleCheck(Triple(d, m2), envValid)
  {
  }

  /**
   * How appending a member (AddMember) changes the outcome of validation:
   * an earlier error stays, except that "no members" gives way to the verdict
   * on the new member.
   */
  lemma {:induction false} TripleCheckAddMember<E>(d: E, m: seq<E>, e: E, envValid: E -> bool)
    ensures TripleCheck(Triple(d, m + [e]), envValid) ==
      match TripleCheck(Triple(d, m), envValid)
      case Some(DomainInvalid) => Some(DomainInvalid)
      case Some(MemberInvalid(k)) => Some(MemberInvalid(k))
      case _ => if envValid(e) then None else Some(MemberInvalid(|m|))
  {
    FirstFailingAppend(m, e, envValid);
  }

  /**
   * How appending a triple (Add) changes the outcome of validating the
   * collection: an earlier failure stays, otherwise the new triple's own
   * error is reported at the last index.
   */
  lemma {:induction false} TriplesCheckAdd<E>(s: seq<Triple<E>>, t: Triple<E>, envValid: E -> bool)
    ensures TriplesCheck(s + [t], envValid) ==
      if TriplesCheck(s, envValid).Some? then TriplesCheck(s, envValid)
      else match TripleCheck(t, envValid)
        case None => None
        case Some(cause) => Some(TripleInvalid(|s|, cause))
  {
    var ok := (x: Triple<E>) => TripleOk(x, envValid);
    FirstFailingAppend(s, t, ok);
    assert (s + [t])[|s|] == t;
    if FirstFailing(s, ok) < |s| {
      assert (s + [t])[FirstFailing(s, ok)] == s[FirstFailing(s, ok)];
    }
  }

  /**
   * The outcomes the unit tests expect, for an environment `empty` that the
   * validator rejects (one with neither class nor instance), and two it
   * accepts: `classEnv`, identified by a class, and `instanceEnv`, by an
   * instance.
   */
  lemma ValidationScenarios<E>(empty: E, classEnv: E, instanceEnv: E, envValid: E -> bool)
    requires !envValid(empty) && envValid(classEnv) && envValid(instanceEnv)
    ensures TripleCheck(Triple(classEnv, [classEnv, instanceEnv]), envValid) == None
    ensures TripleCheck(Triple(empty, [classEnv]), envValid) == Some(DomainInvalid)
    ensures TripleCheck(Triple(classEnv, []), envValid) == Some(NoMembers)
    ensures TripleCheck(Triple(classEnv, [empty]), envValid) == Some(MemberInvalid(0))
    ensures TriplesCheck([], envValid) == None
    ensures TriplesCheck([Triple(classEnv, [instanceEnv])], envValid) == None
    ensures TriplesCheck([Triple(empty, [instanceEnv])], envValid) == Some(TripleInvalid(0, DomainInvalid))
  {
  }

  // ---------------------------------------------------------------------------
  // Rendering of the errors, as the messages the validators produce

  /** The number a string of decimal digits denotes (0 for the empty string). */
  function DecimalValue(s: string): nat
    requires forall i :: 0 <= i < |s| ==> '0' <= s[i] <= '9'
  {
    if s == [] then 0
    else 10 * DecimalValue(s[..|s| - 1]) + (s[|s| - 1] as int - '0' as int)
  }

  /** The decimal digits of `n`, as `%d` prints them: reading them back gives `n`. */
  function NatToString(n: nat): (s: string)
    ensures |s| >= 1
    ensures forall i :: 0 <= i < |s| ==> '0' <= s[i] <= '9'
    ensures DecimalValue(s) == n
    ensures n >= 10 ==> s[0] != '0'
    ensures n < 10 ==> s == [('0' as int + n) as char]
  {
    if n < 10 then [('0' as int + n) as char]
    else
      var prefix := NatToString(n / 10);
      var s := prefix + [('0' as int + n % 10) as char];
      assert s[..|s| - 1] == prefix;
      s
  }

  /** The phase prefixes and texts the triple validator's messages are built from. */
  const DomainPhase := "domain-id validation failed"
  const MembersPhase := "members validation failed: "
  const NoMembersText := "no member environments"
  const MemberAtText := "member at index "

  /**
   * The message of a triple error, without the Environment's own wrapped
   * error: it opens with the phase that failed.
   */
  function TripleMessage(e: TripleError): (r: string)
    ensures e.DomainInvalid? ==> DomainPhase <= r
    ensures !e.DomainInvalid? ==> MembersPhase <= r && r[0] != DomainPhase[0]
  {
    match e
    case DomainInvalid => DomainPhase
    case NoMembers => MembersPhase + NoMembersText
    case MemberInvalid(i) => MembersPhase + MemberAtText + NatToString(i)
  }

  /**
   * The message of a collection error: the index of the triple, then the
   * triple's own message, kept whole at the end as `%w` keeps it.
   */
  function TriplesMessage(e: TriplesError): (r: string)
    ensures "domain membership triple at index " + NatToString(e.index) <= r
    ensures |TripleMessage(e.cause)| < |r| && r[|r| - |TripleMessage(e.cause)|..] == TripleMessage(e.cause)
  {
    var head := "domain membership triple at index " + NatToString(e.index) + ": ";
    var r := head + TripleMessage(e.cause);
    assert r[|head|..] == TripleMessage(e.cause);
    r
  }

  /** The character that tells the two member-phase messages apart. */
  lemma PhaseCharacter(e: TripleError)
    ensures !e.DomainInvalid? ==> |TripleMessage(e)| > |MembersPhase|
    ensures e.NoMembers? ==> TripleMessage(e)[|MembersPhase|] == NoMembersText[0]
    ensures e.MemberInvalid? ==> TripleMessage(e)[|MembersPhase|] == MemberAtText[0]
  {
    match e
    case DomainInvalid =>
    case NoMembers =>
      assert TripleMessage(e)[|MembersPhase|] == NoMembersText[0];
    case MemberInvalid(i) =>
      assert TripleMessage(e) == MembersPhase + (MemberAtText + NatToString(i));
  }

  /** Distinct triple errors render to distinct messages, so a message identifies its error. */
  lemma TripleMessageInjective(a: TripleError, b: TripleError)
    requires TripleMessage(a) == TripleMessage(b)
    ensures a == b
  {
    var p := MembersPhase + MemberAtText;
    PhaseCharacter(a);
    PhaseCharacter(b);
    if a.MemberInvalid? && b.MemberInvalid? {
      assert NatToString(a.index) == TripleMessage(a)[|p|..];
      assert NatToString(b.index) == TripleMessage(b)[|p|..];
    }
  }

  /** Whether `sub` occurs in `s`. */
  predicate Contains(s: string, sub: string) {
    exists i :: 0 <= i <= |s| && sub <= s[i..]
  }

  /** Each kind of triple error names its failing phase, as the tests expect of the messages. */
  lemma TripleMessageNamesPhase(e: TripleError)
    ensures e.DomainInvalid? ==> Contains(TripleMessage(e), "domain-id validation failed")
    ensures e.NoMembers? ==> Contains(TripleMessage(e), "no member environments")
    ensures e.MemberInvalid? ==> Contains(TripleMessage(e), MemberAtText + NatToString(e.index))
    ensures e.MemberInvalid? && e.index == 0 ==> Contains(TripleMessage(e), "member at index 0")
  {
    match e
    case DomainInvalid =>
      assert DomainPhase <= TripleMessage(e)[0..];
    case NoMembers =>
      assert TripleMessage(e)[|MembersPhase|..] == NoMembersText;
    case MemberInvalid(i) =>
      assert TripleMessage(e)[|MembersPhase|..] == MemberAtText + NatToString(i);
      if i == 0 {
        assert TripleMessage(e)[|MembersPhase|..] == MemberAtText + "0";
      }
  }

  /** A collection error names the index of the failing triple, and at index 0 reads as the tests expect. */
  lemma TriplesMessageNamesIndex(e: TriplesError)
    ensures Contains(TriplesMessage(e), "domain membership triple at index " + NatToString(e.index))
    ensures e.index == 0 ==> Contains(TriplesMessage(e), "domain membership triple at index 0")
  {
    assert "domain membership triple at index " + NatToString(e.index) <= TriplesMessage(e)[0..];
  }

  // ---------------------------------------------------------------------------
  // The fail-fast validators, as loops

  /** Validates one triple value, failing fast: DomainMembershipTriple.Valid. */
  method ValidateTriple<E>(t: Triple<E>, envValid: E -> bool) returns (err: Option<TripleError>)
    ensures err == TripleCheck(t, envValid)
  {
    if !envValid(t.domainId) {
      return Some(DomainInvalid);
    }
    if |t.members| == 0 {
      return Some(NoMembers);
    }
    var i := 0;
    while i < |t.members|
      invariant i <= |t.members|
      invariant forall j :: 0 <= j < i ==> envValid(t.members[j])
    {
      if !envValid(t.members[i]) {
        FirstFailingUnique(t.members, envValid, i);
        return Some(MemberInvalid(i));
      }
      i := i + 1;
    }
    return None;
  }

  // ---------------------------------------------------------------------------
  // The triple object

  /** A domain-membership triple that AddMember grows in place. */
  class DomainMembershipTriple<E> {
    var domainId: E
    var members: seq<E>

    constructor (domainId: E, members: seq<E>)
      ensures this.domainId == domainId && this.members == members
    {
      this.domainId := domainId;
      this.members := members;
    }

    /** The triple's current contents, as a value. */
    function Value(): Triple<E>
      reads this
    {
      Triple(domainId, members)
    }

    /** Validates the triple without changing it. */
    method Valid(envValid: E -> bool) returns (err: Option<TripleError>)
      ensures err == TripleCheck(Triple(domainId, members), envValid)
    {
      err := ValidateTriple(Value(), envValid);
    }
  }

  /**
   * Appends `env` to the members of `o` and returns `o`; a null `o` is
   * returned unchanged.
   */
  method AddMember<E>(o: DomainMembershipTriple?<E>, env: E) returns (r: DomainMembershipTriple?<E>)
    modifies o
    ensures r == o
    ensures o != null ==> o.members == old(o.members) + [env] && o.domainId == old(o.domainId)
  {
    if o != null {
      o.members := o.members + [env];
    }
    r := o;
  }

  // ---------------------------------------------------------------------------
  // The collection object

  /** The ordered collection of domain-membership triples, stored by value. */
  class DomainMembershipTriples<E> {
    var triples: seq<Triple<E>>

    /** NewDomainMembershipTriples: an empty collection. */
    constructor ()
      ensures triples == [] && IsEmpty()
    {
      triples := [];
    }

    /** Whether the collection holds no triple. */
    function IsEmpty(): (b: bool)
      reads this
      ensures b <==> triples == []
    {
      |triples| == 0
    }

    /** Validates every triple in order, failing fast with the index of the first invalid one. */
    method Valid(envValid: E -> bool) returns (err: Option<TriplesError>)
      ensures err == TriplesCheck(triples, envValid)
    {
      ghost var ok := (t: Triple<E>) => TripleOk(t, envValid);
      var i := 0;
      while i < |triples|
        invariant i <= |triples|
        invariant forall j :: 0 <= j < i ==> TripleOk(triples[j], envValid)
      {
        var e := ValidateTriple(triples[i], envValid);
        if e.Some? {
          FirstFailingUnique(triples, ok, i);
          return Some(TripleInvalid(i, e.value));
        }
        i := i + 1;
      }
      return None;
    }
  }

  /**
   * Appends a copy of `val`'s current contents to `o` and returns `o`; when
   * either reference is null nothing changes.
   */
  method Add<E>(o: DomainMembershipTriples?<E>, val: DomainMembershipTriple?<E>)
    returns (r: DomainMembershipTriples?<E>)
    modifies o
    ensures r == o
    ensures o != null && val != null ==> o.triples == old(o.triples) + [val.Value()] && !o.IsEmpty()
    ensures o != null && val == null ==> o.triples == old(o.triples)
  {
    if o != null && val != null {
      o.triples := o.triples + [val.Value()];
    }
    r := o;
  }
}
