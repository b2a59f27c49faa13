# Domain-membership triples (CoRIM) in Dafny

This project models the domain-membership triple of the IETF RATS CoRIM draft (draft-ietf-rats-corim), as implemented in `comid/membership_triple.go`. A triple links one domain environment, the subject, to a list of member environments, the objects. A CoMID holds an ordered collection of such triples.

- `wrappers.dfy` defines the `Option` datatype used for validation results.
- `membership_triple.dfy` (module `MembershipTriple`) holds the model itself:
  - error datatypes:
    - `TripleError`: `DomainInvalid`, `NoMembers`, `MemberInvalid(i)`;
    - `TriplesError`: `TripleInvalid(i, cause)`.
  - value datatype `Triple`, holding the domain and the members.
  - specification functions for fail-fast validation:
    - `FirstFailing`, the first failing index;
    - `TripleCheck`;
    - `TriplesCheck`.
  - the fail-fast validators, as loops. They read the state without changing it and are proved equal to the specification functions.
  - the two mutable objects:
    - class `DomainMembershipTriple`, grown in place by `AddMember`;
    - class `DomainMembershipTriples`, grown in place by `Add`.
  - the error messages that each error constructor renders to.

Environments are opaque. Everything is generic in the environment type `E`, and each validation receives the environment validator as a total function `envValid: E -> bool`. The unit-test scenarios rely on two facts about that validator. First, an environment with no class and no instance is rejected. Second, the environments the success tests build are accepted: one with a class UUID, vendor and model, and one with a UEID instance. `ValidationScenarios` takes these facts as its hypotheses `!envValid(empty)`, `envValid(classEnv)` and `envValid(instanceEnv)`.

Go's nil receivers are modelled as Dafny's nullable references (`DomainMembershipTriple?`, `DomainMembershipTriples?`). `AddMember` and `Add` are module-level methods whose null cases are explicit no-ops. The collection stores triple values. This matches Go's `append(*o, *val)`, which copies the struct, so a later `AddMember` on the original triple does not change the copy in the collection.

## Model

| member | source | states |
|---|---|---|
| `MembershipTriple.FirstFailing` | comid/membership_triple.go:32-36 | every element before the returned index passes, and the element at that index (if within bounds) fails: it is the lowest failing index |
| `MembershipTriple.FirstFailingAppend` | comid/membership_triple.go:32-36 | appending an element keeps an earlier first failure; otherwise the first failure is the new element or there is none |
| `MembershipTriple.TripleCheck` | comid/membership_triple.go:23-39 | success exactly when the domain is valid, there is at least one member and all members are valid; an invalid domain gives `DomainInvalid` whatever the members; a valid domain with no members gives `NoMembers`; a valid domain whose lowest invalid member is at `q` gives `MemberInvalid(q)`, and conversely `MemberInvalid(k)` only ever names the lowest invalid member, with the domain valid |
| `MembershipTriple.ValidateTriple` | comid/membership_triple.go:23-39 | the fail-fast loop (domain, then emptiness, then members in index order) returns exactly the outcome `TripleCheck` specifies |
| `MembershipTriple.DomainMembershipTriple.Valid` | comid/membership_triple.go:23-39 | validating a triple object gives `TripleCheck` of its current domain and members and changes nothing |
| `MembershipTriple.DomainCheckedFirst` | comid/membership_triple.go:24-26 | with an invalid domain, the members (empty, valid or not) have no effect on the outcome |
| `MembershipTriple.ValidationScenarios` | comid/domain_membership_triple_test.go:13-192 | the outcomes the unit tests expect: success for valid domain and members; domain error; no-members error; member error at index 0; an empty collection is valid; a collection error at index 0 caused by the domain |
| `MembershipTriple.NatToString` | comid/membership_triple.go:34 | the `%d` rendering of an index is a non-empty string of decimal digits, with no leading zero, that reads back as the index |
| `MembershipTriple.TripleMessage` | comid/membership_triple.go:25-34 | a domain error's message opens with "domain-id validation failed"; a no-members or member error's message opens with "members validation failed: " and so cannot be read as a domain error |
| `MembershipTriple.TriplesMessage` | comid/membership_triple.go:60 | a collection error's message opens with "domain membership triple at index " and the index, and ends with the failing triple's own message, kept whole |
| `MembershipTriple.TripleMessageInjective` | comid/membership_triple.go:25-34 | two triple errors with the same message are the same error, so the message identifies the phase and the member index |
| `MembershipTriple.TripleMessageNamesPhase` | comid/membership_triple.go:25-34 | each triple error's message contains its phase: "domain-id validation failed", "no member environments", and "member at index " followed by the member's index for every index ("member at index 0" for the first) |
| `MembershipTriple.TriplesMessageNamesIndex` | comid/membership_triple.go:60 | every collection error's message contains "domain membership triple at index " followed by the failing index; for the first triple that is "domain membership triple at index 0" |
| `MembershipTriple.DomainMembershipTriple.constructor` | comid/membership_triple.go:16-20 | a triple object holds the given domain and members |
| `MembershipTriple.AddMember` | comid/membership_triple.go:42-47 | on a non-null triple the members become the old members plus `env` at the end and the domain is unchanged; on null nothing changes; the receiver is returned |
| `MembershipTriple.TripleCheckAddMember` | comid/membership_triple.go:42-47 | after appending a member, a domain error or member error stays as it was; otherwise (valid, or no members) the result is success if the new member is valid, else `MemberInvalid` at the new member's index |
| `MembershipTriple.DomainMembershipTriples.constructor` | comid/membership_triple.go:53-55 | `NewDomainMembershipTriples` yields a collection with no triples, which `IsEmpty` reports |
| `MembershipTriple.DomainMembershipTriples.IsEmpty` | comid/membership_triple.go:66-68 | true exactly when the collection holds no triple |
| `MembershipTriple.TriplesCheck` | comid/membership_triple.go:57-64 | an empty collection is valid; success exactly when every triple is valid; otherwise `TripleInvalid(k, cause)`, where `k` is the lowest invalid index and `cause` is that triple's own error |
| `MembershipTriple.DomainMembershipTriples.Valid` | comid/membership_triple.go:57-64 | the fail-fast loop over the triples returns exactly the outcome `TriplesCheck` specifies and changes nothing |
| `MembershipTriple.Add` | comid/membership_triple.go:70-75 | with both references non-null, a copy of the triple's current contents is appended at the end, earlier triples are kept, duplicates are allowed, and the collection is then not empty; with a null triple the collection is unchanged; the receiver is always returned |
| `MembershipTriple.TriplesCheckAdd` | comid/membership_triple.go:70-75 | after appending a triple, an earlier collection error stays; otherwise the new triple's own error is reported at the last index, or the collection is valid |

## Left out

- Environment internals are not part of this model: class, UUID and UEID identifiers, vendor and model setters, and the rules of `Environment.Valid`. Validity is the abstract parameter `envValid`.
- The error text that `%w` appends is dropped. `TripleMessage` and `TriplesMessage` render each constructor's own prefix only. The Environment's wrapped error is not modelled, because its text is unknown.
- Errors are datatypes, not Go error values. Matching with `errors.Is`/`errors.As` on the wrapping chain is not modelled.
- Three methods panic in Go on a nil receiver, because they dereference it: `DomainMembershipTriple.Valid`, `DomainMembershipTriples.Valid` and `DomainMembershipTriples.IsEmpty`. The model gives all three a non-null receiver, so the panic is not modelled.
- The Go slice's backing-array sharing between a triple and its copy in a collection is not modelled. Only the visible elements are, and the copy in the collection keeps its own length.
- CBOR and JSON serialisation (`toarray`, `domain-id`, `members`) is done by an external codec that is not part of this model. The same goes for the round-trip and encoded-length tests.
- `Triples.AddDomainMembershipTriple`, `Triples.Valid`, `Comid.AddDomainMembershipTriple`, `Comid.Valid` and the other `Comid` builders are not part of this model. Their source is not among the modelled files.
- The printed output of the example tests is I/O and is not modelled.
