/** The live policy behind optimistic-concurrency ETags. */
module PolicyStoreModel {

  import opened Prelude
  import opened Words
  import opened PolicyModel

  /** JSON serialisation of a policy: some fixed function. */
  type Serializer = Policy -> Bytes

  // ---------------------------------------------------------------- ETags

  const HEX_DIGITS := "0123456789abcdef"

  /** The low `n` hex digits of `h`, most significant first. */
  function Hex(h: nat, n: nat): (s: string)
    ensures |s| == n
  {
    if n == 0 then "" else Hex(h / 16, n - 1) + [HEX_DIGITS[h % 16]]
  }

  function Mixed(hash: nat, nonce: nat): nat {
    Xor(hash, WrappingMul(nonce, FNV_PRIME), 64)
  }

  function EtagFor(ser: Serializer, p: Policy, nonce: nat): string {
    "\"" + Hex(Mixed(Fnv1a64(ser(p)), nonce), 16) + "\""
  }

  lemma {:induction false} HexInjective(a: nat, b: nat, n: nat)
    requires a < Pow2(4 * n) && b < Pow2(4 * n) && Hex(a, n) == Hex(b, n)
    ensures a == b
  {
    if n > 0 {
      assert Hex(a / 16, n - 1) == Hex(a, n)[..n - 1] == Hex(b / 16, n - 1);
      assert HEX_DIGITS[a % 16] == Hex(a, n)[n - 1] == HEX_DIGITS[b % 16];
      assert Pow2(4 * n) == 4 * Pow2(4 * n - 2) == 16 * Pow2(4 * (n - 1));
      HexInjective(a / 16, b / 16, n - 1);
    }
  }

  lemma MixedInjective(hash: nat, a: nat, b: nat)
    requires a < TWO64 && b < TWO64 && Mixed(hash, a) == Mixed(hash, b)
    ensures a == b
  {
    WordSizes();
    var x, y := WrappingMul(a, FNV_PRIME), WrappingMul(b, FNV_PRIME);
    XorSwap(hash, x, 64);
    XorSwap(hash, y, 64);
    XorUndo(x, hash, 64);
    XorUndo(y, hash, 64);
    PrimeMulUndo(a);
    PrimeMulUndo(b);
  }

  /** Two versions with the same content are told apart by their nonces. */
  lemma EtagsDiffer(ser: Serializer, p: Policy, a: nat, b: nat)
    requires a < TWO64 && b < TWO64 && a != b
    ensures EtagFor(ser, p, a) != EtagFor(ser, p, b)
  {
    WordSizes();
    var hash := Fnv1a64(ser(p));
    if EtagFor(ser, p, a) == EtagFor(ser, p, b) {
      assert Hex(Mixed(hash, a), 16) == EtagFor(ser, p, a)[1..17];
      assert Hex(Mixed(hash, b), 16) == EtagFor(ser, p, b)[1..17];
      XorBound(hash, WrappingMul(a, FNV_PRIME), 64);
      XorBound(hash, WrappingMul(b, FNV_PRIME), 64);
      HexInjective(Mixed(hash, a), Mixed(hash, b), 16);
      MixedInjective(hash, a, b);
      assert false;
    }
  }

  // ---------------------------------------------------------------- the store

  datatype Snapshot = Snapshot(policy: Policy, etag: string)

  datatype ReplaceError = EtagMismatch(current: string, provided: string) | Invalid(pattern: string)

  /** A policy the store has held and the nonce its ETag was minted from. */
  datatype Version = Version(policy: Policy, nonce: nat)

  /** The store, the process-wide nonce counter, and the history of versions. */
  datatype Store = Store(current: Snapshot, counter: nat, versions: seq<Version>)

  function NewStore(ser: Serializer, p: Policy, counter: nat): Store {
    Store(Snapshot(p, EtagFor(ser, p, 0)), counter, [Version(p, 0)])
  }

  /** Validation comes first, then the ETag check, and only then is a nonce drawn. */
  function Replace(ser: Serializer, s: Store, ifMatch: string, p: Policy): (Store, Result<Snapshot, ReplaceError>) {
    if Validate(p).Err? then (s, Err(Invalid(Validate(p).error)))
    else if s.current.etag != ifMatch then (s, Err(EtagMismatch(s.current.etag, ifMatch)))
    else
      var next := Snapshot(p, EtagFor(ser, p, s.counter));
      (Store(next, (s.counter + 1) % TWO64, s.versions + [Version(p, s.counter)]), Ok(next))
  }

  class NonceSource {
    var next: nat

    constructor ()
      ensures next == 1
    {
      next := 1;
    }

    method Draw() returns (nonce: nat)
      modifies this
      ensures nonce == old(next) && next == (nonce + 1) % TWO64
    {
      nonce := next;
      next := (next + 1) % TWO64;
    }
  }

  class PolicyStore {
    const ser: Serializer
    const nonces: NonceSource
    var snapshot: Snapshot
    var versions: seq<Version>

    ghost function View(): Store
      reads this, nonces
    {
      Store(snapshot, nonces.next, versions)
    }

    constructor (ser: Serializer, nonces: NonceSource, p: Policy)
      ensures this.ser == ser && this.nonces == nonces
      ensures View() == NewStore(ser, p, nonces.next)
    {
      this.ser, this.nonces := ser, nonces;
      snapshot := Snapshot(p, EtagFor(ser, p, 0));
      versions := [Version(p, 0)];
    }

    method ReplacePolicy(ifMatch: string, p: Policy) returns (r: Result<Snapshot, ReplaceError>)
      modifies this, nonces
      ensures (View(), r) == Replace(ser, old(View()), ifMatch, p)
    {
      var verdict := Validate(p);
      if verdict.Err? {
        return Err(Invalid(verdict.error));
      }
      if snapshot.etag != ifMatch {
        return Err(EtagMismatch(snapshot.etag, ifMatch));
      }
      var nonce := nonces.Draw();
      snapshot := Snapshot(p, EtagFor(ser, p, nonce));
      versions := versions + [Version(p, nonce)];
      return Ok(snapshot);
    }
  }

  // ---------------------------------------------------------------- runs

  /** Another store of the process may draw a nonce in between. */
  datatype Op = OpReplace(ifMatch: string, policy: Policy) | OpElsewhere

  function Step(ser: Serializer, s: Store, op: Op): Store {
    match op
    case OpReplace(ifMatch, p) => Replace(ser, s, ifMatch, p).0
    case OpElsewhere => s.(counter := (s.counter + 1) % TWO64)
  }

  function Run(ser: Serializer, s: Store, ops: seq<Op>): Store {
    if ops == [] then s else Step(ser, Run(ser, s, ops[..|ops| - 1]), ops[|ops| - 1])
  }

  /** The operation draws a nonce: another store's does, and a replace that takes effect. */
  predicate Draws(s: Store, op: Op) {
    match op
    case OpReplace(ifMatch, p) => Validate(p).Ok? && s.current.etag == ifMatch
    case OpElsewhere => true
  }

  /** How many nonces a run draws; refused replaces draw none. */
  function Drawn(ser: Serializer, s: Store, ops: seq<Op>): nat {
    if ops == [] then 0
    else
      var prior := ops[..|ops| - 1];
      Drawn(ser, s, prior) + if Draws(Run(ser, s, prior), ops[|ops| - 1]) then 1 else 0
  }

  /** `next` is the counter before reduction to 64 bits. */
  ghost predicate Consistent(ser: Serializer, s: Store, next: nat) {
    && 0 < |s.versions| && 0 < next <= TWO64 && s.counter == next % TWO64
    && (forall i, j :: 0 <= i < j < |s.versions| ==> s.versions[i].nonce < s.versions[j].nonce)
    && (forall i :: 0 <= i < |s.versions| ==> s.versions[i].nonce < next)
    && var v := s.versions[|s.versions| - 1];
       s.current == Snapshot(v.policy, EtagFor(ser, v.policy, v.nonce))
  }

  lemma Reduced(n: nat)
    requires n < TWO64
    ensures n % TWO64 == n
  {
  }

  lemma StepConsistent(ser: Serializer, s: Store, op: Op, next: nat)
    requires Consistent(ser, s, next) && (Draws(s, op) ==> next < TWO64)
    ensures Consistent(ser, Step(ser, s, op), next + if Draws(s, op) then 1 else 0)
    ensures Valid(s.current.policy) ==> Valid(Step(ser, s, op).current.policy)
  {
    hide EtagFor, Validate;
    if Draws(s, op) {
      Reduced(next);
      var s' := Step(ser, s, op);
      if op.OpReplace? {
        assert s'.versions[|s.versions|] == Version(op.policy, next);
        assert forall i :: 0 <= i < |s.versions| ==> s'.versions[i] == s.versions[i];
      }
    }
  }

  lemma {:induction false} RunConsistent(ser: Serializer, p: Policy, counter: nat, ops: seq<Op>)
    requires 0 < counter < TWO64 && counter + Drawn(ser, NewStore(ser, p, counter), ops) <= TWO64
    ensures var s := NewStore(ser, p, counter);
            Consistent(ser, Run(ser, s, ops), counter + Drawn(ser, s, ops))
    ensures Valid(p) ==> Valid(Run(ser, NewStore(ser, p, counter), ops).current.policy)
    decreases |ops|
  {
    hide EtagFor, Validate, Step, Draws;
    if ops != [] {
      var prior := ops[..|ops| - 1];
      RunConsistent(ser, p, counter, prior);
      var s := Run(ser, NewStore(ser, p, counter), prior);
      StepConsistent(ser, s, ops[|ops| - 1], counter + Drawn(ser, NewStore(ser, p, counter), prior));
    } else {
      Reduced(counter);
    }
  }

  /**
    As long as the process has drawn fewer than 2^64 nonces, refused replaces not counted, a
    later version of one store never has the ETag of an earlier version with the same content.
    A store that starts valid stays valid.
  */
  lemma EqualContentToldApart(ser: Serializer, p: Policy, counter: nat, ops: seq<Op>, i: nat, j: nat)
    requires 0 < counter < TWO64 && counter + Drawn(ser, NewStore(ser, p, counter), ops) <= TWO64
    requires var s := Run(ser, NewStore(ser, p, counter), ops);
             i < j < |s.versions| && s.versions[i].policy == s.versions[j].policy
    ensures var s := Run(ser, NewStore(ser, p, counter), ops);
            && EtagFor(ser, s.versions[i].policy, s.versions[i].nonce)
               != EtagFor(ser, s.versions[j].policy, s.versions[j].nonce)
            && (Valid(p) ==> Valid(s.current.policy))
  {
    hide EtagFor, Validate, Run, Drawn;
    RunConsistent(ser, p, counter, ops);
    var s := Run(ser, NewStore(ser, p, counter), ops);
    EtagsDiffer(ser, s.versions[i].policy, s.versions[i].nonce, s.versions[j].nonce);
  }

  /**
    Optimistic concurrency over a whole run: a handle on an earlier version with the current
    content is always refused, and changes nothing.
  */
  lemma StaleHandleRefused(ser: Serializer, p: Policy, counter: nat, ops: seq<Op>, i: nat, next: Policy)
    requires 0 < counter < TWO64 && counter + Drawn(ser, NewStore(ser, p, counter), ops) <= TWO64
    requires var s := Run(ser, NewStore(ser, p, counter), ops);
             i < |s.versions| - 1 && s.versions[i].policy == s.current.policy
    ensures var s := Run(ser, NewStore(ser, p, counter), ops);
            var stale := EtagFor(ser, s.versions[i].policy, s.versions[i].nonce);
            Replace(ser, s, stale, next).0 == s && Replace(ser, s, stale, next).1.Err?
  {
    hide EtagFor, Validate, Run, Drawn;
    RunConsistent(ser, p, counter, ops);
    var s := Run(ser, NewStore(ser, p, counter), ops);
    EtagsDiffer(ser, s.current.policy, s.versions[i].nonce, s.versions[|s.versions| - 1].nonce);
  }

  /**
    A replace installs the given policy if and only if it is valid and names the current ETag;
    an invalid one is reported first, and a refused one changes nothing.
  */
  lemma ReplaceExactly(ser: Serializer, s: Store, ifMatch: string, p: Policy)
    ensures var (s', r) := Replace(ser, s, ifMatch, p);
            && (r.Ok? <==> Valid(p) && ifMatch == s.current.etag)
            && (r.Ok? ==>
                  && s'.current.policy == p && r.value == s'.current
                  && s'.versions == s.versions + [Version(p, s.counter)] && s'.counter == (s.counter + 1) % TWO64)
            && (r.Err? ==> s' == s && (r.error.EtagMismatch? <==> Valid(p)))
            && (r.Err? && r.error.EtagMismatch? ==> r.error.current == s.current.etag && r.error.provided == ifMatch)
  {
    hide EtagFor;
  }

  /** The value of lower-case hex digits, most significant first. */
  function HexValue(s: string): nat {
    if s == "" then 0
    else
      var n := |s| - 1;
      var d := s[n];
      16 * HexValue(s[..n]) + if '0' <= d <= '9' then d as int - '0' as int
                              else if 'a' <= d <= 'f' then 10 + (d as int - 'a' as int) else 0
  }

  lemma {:induction false} HexReads(h: nat, n: nat)
    requires h < Pow2(4 * n)
    ensures HexValue(Hex(h, n)) == h
    decreases n
  {
    if n > 0 {
      assert Pow2(4 * n) == 4 * Pow2(4 * n - 2) == 16 * Pow2(4 * (n - 1));
      var s := Hex(h, n);
      assert s[..n - 1] == Hex(h / 16, n - 1) && s[n - 1] == HEX_DIGITS[h % 16];
      HexReads(h / 16, n - 1);
      DigitReads(h % 16);
    }
  }

  lemma DigitReads(d: nat)
    requires d < 16
    ensures var c := HEX_DIGITS[d];
            d == if '0' <= c <= '9' then c as int - '0' as int else if 'a' <= c <= 'f' then 10 + (c as int - 'a' as int) else 0
  {
  }

  /** An ETag is sixteen hex digits in quotes: the hash of the content, exclusive-or the nonce times the prime modulo 2^64. */
  lemma EtagExactly(ser: Serializer, p: Policy, nonce: nat)
    ensures var etag := EtagFor(ser, p, nonce);
            && |etag| == 18 && etag[0] == '"' && etag[17] == '"'
            && HexValue(etag[1..17])
               == Xor(Fnv1a64(ser(p)), nonce * 0x0000_0100_0000_01b3 % 0x1_0000_0000_0000_0000, 64)
  {
    hide Xor, Fnv1a64, HexValue, Hex;
    var mixed := Mixed(Fnv1a64(ser(p)), nonce);
    WordSizes();
    XorBound(Fnv1a64(ser(p)), WrappingMul(nonce, FNV_PRIME), 64);
    HexReads(mixed, 16);
    assert EtagFor(ser, p, nonce)[1..17] == Hex(mixed, 16);
  }
}
