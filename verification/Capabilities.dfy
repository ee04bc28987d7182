/** The capability pipeline of a guest (meowix capabilities.rs, spawn/mod.rs). */
module Capabilities {
  import opened Wrappers
  import opened Digits

  // ----- 64-bit sets and their two 32-bit halves -----

  const BITS := 64
  const HALF := 0x1_0000_0000

  type CapabilitySet = bits: nat | bits < HALF * HALF

  predicate Has(bits: int, capability: nat)
    decreases capability
  {
    if capability == 0 then bits % 2 == 1 else Has(bits / 2, capability - 1)
  }

  function Members(bits: nat): set<nat> {
    set c: nat | c < BITS && Has(bits, c)
  }

  datatype CapabilitySets = CapabilitySets(
    effective: CapabilitySet, permitted: CapabilitySet, inheritable: CapabilitySet)

  /** One `__user_cap_data_struct`: three 32-bit words. */
  datatype UserData = UserData(effective: nat, permitted: nat, inheritable: nat)

  function Low(bits: CapabilitySet): nat {
    bits % HALF
  }

  function High(bits: CapabilitySet): nat {
    bits / HALF
  }

  function IntoUserData(sets: CapabilitySets): (UserData, UserData) {
    (UserData(Low(sets.effective), Low(sets.permitted), Low(sets.inheritable)),
     UserData(High(sets.effective), High(sets.permitted), High(sets.inheritable)))
  }

  /** The set the kernel reads from a low and a high word. */
  function Joined(low: nat, high: nat): set<nat> {
    set c: nat | c < BITS && if c < 32 then Has(low, c) else Has(high, c - 32)
  }

  lemma DivModUnique(b: nat, d: nat, q: nat, r: nat)
    requires d > 0 && b == q * d + r && r < d
    ensures b / d == q && b % d == r
  {
    var k := b / d - q;
    assert k * d == r - b % d;
    assert k > 0 ==> k * d >= d;
    assert k < 0 ==> k * d <= (0 - d);
  }

  lemma HalfOfRemainder(b: nat, m: nat)
    requires m > 0
    ensures b % (2 * m) / 2 == b / 2 % m
    ensures b % (2 * m) % 2 == b % 2
    ensures b / (2 * m) == b / 2 / m
  {
    var q, r := b / 2 / m, b / 2 % m;
    var rest := 2 * r + b % 2;
    assert b / 2 == q * m + r;
    assert b == q * (2 * m) + rest;
    DivModUnique(b, 2 * m, q, rest);
  }

  lemma {:induction false} HasLow(b: nat, k: nat, c: nat)
    requires c < k
    ensures Has(b % Pow2(k), c) == Has(b, c)
  {
    HalfOfRemainder(b, Pow2(k - 1));
    if c > 0 {
      HasLow(b / 2, k - 1, c - 1);
    }
  }

  lemma {:induction false} HasHigh(b: nat, k: nat, c: nat, m: nat)
    requires m == Pow2(k)
    ensures m > 0 && Has(b / m, c) == Has(b, k + c)
  {
    if k > 0 {
      HalfOfRemainder(b, Pow2(k - 1));
      HasHigh(b / 2, k - 1, c, Pow2(k - 1));
    }
  }

  lemma SplitHas(bits: CapabilitySet, half: nat, c: nat)
    requires half == 32
    ensures if c < half then Has(Low(bits), c) == Has(bits, c) else Has(High(bits), c - half) == Has(bits, c)
  {
    PowersOfTwo();
    if c < half {
      HasLow(bits, half, c);
    } else {
      HasHigh(bits, half, c - half, HALF);
    }
  }

  /** The low and high words fit their fields and carry the 64 bits, no more and no less. */
  lemma SplitRejoins(bits: CapabilitySet)
    ensures Low(bits) < HALF && High(bits) < HALF
    ensures Joined(Low(bits), High(bits)) == Members(bits)
  {
    forall c: nat | c < BITS
      ensures c in Joined(Low(bits), High(bits)) <==> c in Members(bits)
    {
      SplitHas(bits, 32, c);
    }
  }

  /** Bit `c` of a number, by division. */
  lemma {:induction false} HasExactly(bits: nat, c: nat)
    ensures Has(bits, c) <==> bits / Pow2(c) % 2 == 1
  {
    if c > 0 {
      HasExactly(bits / 2, c - 1);
      HalfOfRemainder(bits, Pow2(c - 1));
    }
  }

  /** The members of a set are its bits below 64, in one word of 64 or in two words of 32. */
  lemma MembersExactly(low: nat, high: nat, c: nat)
    requires low < HALF && high < HALF
    ensures
      var bits := low + 0x1_0000_0000 * high;
      && (c in Members(bits) <==> c < 64 && bits / Pow2(c) % 2 == 1)
      && (c in Joined(low, high) <==> c in Members(bits))
      && Low(bits) == low && High(bits) == high
  {
    var bits: CapabilitySet := low + HALF * high;
    HasExactly(bits, c);
    DivModUnique(bits, HALF, high, low);
    SplitRejoins(bits);
  }

  lemma {:induction false} HasNone(c: nat)
    ensures !Has(0, c)
  {
    if c > 0 {
      HasNone(c - 1);
    }
  }

  lemma NoMembers()
    ensures Members(0) == {}
  {
    forall c: nat | c < BITS ensures !Has(0, c) {
      HasNone(c);
    }
  }

  // ----- the kernel's five sets -----

  datatype Credentials = Credentials(
    bounding: set<nat>, permitted: set<nat>, effective: set<nat>, inheritable: set<nat>, ambient: set<nat>)

  const CAP_SETPCAP := 8

  predicate IsKnown(last: nat, capability: nat) {
    capability <= last
  }

  /** The capabilities of a kernel whose last one is `last`: they are contiguous. */
  function Known(last: nat): set<nat> {
    set c: nat | c <= last && IsKnown(last, c)
  }

  /** What entering a new user namespace leaves: everything, and nothing an exec hands on. */
  function Reset(last: nat): Credentials {
    Credentials(Known(last), Known(last), Known(last), {}, {})
  }

  /** The rules of `capset`; unknown bits have been masked. */
  predicate MaySet(c: Credentials, effective: set<nat>, permitted: set<nat>, inheritable: set<nat>) {
    && inheritable <= c.inheritable + c.bounding
    && (CAP_SETPCAP !in c.effective ==> inheritable <= c.inheritable + c.permitted)
    && permitted <= c.permitted
    && effective <= permitted
  }

  function Set(c: Credentials, effective: set<nat>, permitted: set<nat>, inheritable: set<nat>): Credentials {
    Credentials(c.bounding, permitted, effective, inheritable, c.ambient * permitted * inheritable)
  }

  /** The capability side of an executable: its file capabilities, if it is tagged with any. */
  datatype Image = Image(tagged: bool, permitted: set<nat>, inheritable: set<nat>, raise: bool)

  /** What the file capabilities of an image give. */
  function FromFile(c: Credentials, image: Image): set<nat> {
    if image.tagged then (c.inheritable * image.inheritable) + (c.bounding * image.permitted) else {}
  }

  /** A program that expects its capabilities to be raised does not start without all it is permitted. */
  predicate MayExec(c: Credentials, image: Image) {
    image.tagged && image.raise ==> image.permitted <= FromFile(c, image)
  }

  /**
    * `execve` by a process whose effective user in its namespace is root or not. The clone has set the
    * no-new-privileges flag for good: set-id bits have no effect, and nothing is gained over the old permitted set.
    */
  function Exec(c: Credentials, root: bool, image: Image): Credentials {
    var base := (if root then c.inheritable + c.bounding else FromFile(c, image)) * c.permitted;
    var ambient := if image.tagged then {} else c.ambient;
    var permitted := base + ambient;
    var effective := if root || (image.tagged && image.raise) then permitted else ambient;
    Credentials(c.bounding, permitted, effective, c.inheritable, ambient)
  }

  /** The promise of the pipeline, at the moment of the first exec. */
  predicate Sealed(c: Credentials, target: set<nat>) {
    && c.bounding == target
    && c.permitted == target
    && c.inheritable == target
    && c.ambient == target
    && c.effective == {}
  }

  /** Whether the executable's own capabilities make up for the ambient set they replace. */
  predicate Covers(image: Image, target: set<nat>) {
    target <= image.permitted + image.inheritable
  }

  /**
    * What an exec makes of a sealed process, for every image and user: the whole target, unless the image has file
    * capabilities that fall short of it and its user is not root.
    */
  lemma ExecFromSealed(c: Credentials, target: set<nat>, root: bool, image: Image)
    requires Sealed(c, target)
    ensures MayExec(c, image) <==> (image.tagged && image.raise ==> image.permitted <= target)
    ensures
      var r := Exec(c, root, image);
      && r.bounding == r.inheritable == target
      && r.effective <= r.permitted <= target
      && (r.permitted == target <==> root || !image.tagged || Covers(image, target))
      && (r.effective == target <==> root || !image.tagged || target == {} || (image.raise && Covers(image, target)))
  {
    var r := Exec(c, root, image);
    var fromFile := (target * image.inheritable) + (target * image.permitted);
    assert fromFile == target <==> Covers(image, target) by {
      if Covers(image, target) {
        assert forall x :: x in target ==> x in fromFile;
      } else {
        var x :| x in target && x !in image.permitted + image.inheritable;
        assert x !in fromFile;
      }
    }
    assert (target + target) * target == target && fromFile * target == fromFile && fromFile + {} == fromFile;
    assert {} * target == {} && {} + target == target;
    if root {
      assert r.permitted == target;
    } else if image.tagged {
      assert r.permitted == fromFile;
    } else {
      assert r.permitted == target;
    }
  }

  /** Corollary: an ordinary program starts with exactly the target, whether its user is root or not. */
  lemma ProgramGetsTarget(c: Credentials, target: set<nat>, root: bool, image: Image)
    requires Sealed(c, target) && !image.tagged
    ensures MayExec(c, image) && Exec(c, root, image) == Credentials(target, target, target, target, target)
  {
    ExecFromSealed(c, target, root, image);
  }

  // ----- what the guest can do afterwards, without a further user namespace -----

  datatype Step =
    | Run(root: bool, image: Image)
    | Capset(effective: set<nat>, permitted: set<nat>, inheritable: set<nat>)
    | Drop(capability: nat)
    | Raise(capability: nat)
    | Lower(capability: nat)

  predicate Allowed(c: Credentials, step: Step) {
    match step
    case Run(_, image) => MayExec(c, image)
    case Capset(e, p, i) => MaySet(c, e, p, i)
    case Drop(_) => CAP_SETPCAP in c.effective
    case Raise(capability) => capability in c.permitted && capability in c.inheritable
    case Lower(_) => true
  }

  function After(c: Credentials, step: Step): Credentials {
    match step
    case Run(root, image) => Exec(c, root, image)
    case Capset(e, p, i) => Set(c, e, p, i)
    case Drop(capability) => c.(bounding := c.bounding - {capability})
    case Raise(capability) => c.(ambient := c.ambient + {capability})
    case Lower(capability) => c.(ambient := c.ambient - {capability})
  }

  ghost predicate Steps(c: Credentials, steps: seq<Step>, last: Credentials)
    decreases |steps|
  {
    if steps == [] then last == c else Allowed(c, steps[0]) && Steps(After(c, steps[0]), steps[1..], last)
  }

  /** The rules of capabilities(7), spelled out for each change and each member. */
  lemma RulesExactly(c: Credentials, e: set<nat>, p: set<nat>, i: set<nat>, x: nat)
    ensures Allowed(c, Capset(e, p, i)) <==>
      && e <= p <= c.permitted
      && i <= c.inheritable + c.bounding
      && (8 in c.effective || i <= c.inheritable + c.permitted)
    ensures After(c, Capset(e, p, i)) == Credentials(c.bounding, p, e, i, c.ambient * p * i)
    ensures Allowed(c, Drop(x)) <==> 8 in c.effective
    ensures After(c, Drop(x)) == Credentials(c.bounding - {x}, c.permitted, c.effective, c.inheritable, c.ambient)
    ensures Allowed(c, Raise(x)) <==> x in c.permitted && x in c.inheritable
    ensures After(c, Raise(x)) == Credentials(c.bounding, c.permitted, c.effective, c.inheritable, c.ambient + {x})
    ensures Allowed(c, Lower(x))
    ensures After(c, Lower(x)) == Credentials(c.bounding, c.permitted, c.effective, c.inheritable, c.ambient - {x})
  {
  }

  /** Everything in any of the five sets. */
  function Anywhere(c: Credentials): set<nat> {
    c.bounding + c.permitted + c.effective + c.inheritable + c.ambient
  }

  /** No exec of any image, and nothing the guest does to its own sets, ever gains a capability outside the target. */
  lemma {:induction false} NeverBeyondTarget(c: Credentials, steps: seq<Step>, last: Credentials, target: set<nat>)
    requires Anywhere(c) <= target && Steps(c, steps, last)
    ensures Anywhere(last) <= target
    decreases |steps|
  {
    if steps != [] {
      NeverBeyondTarget(After(c, steps[0]), steps[1..], last, target);
    }
  }

  // ----- the guest process -----

  datatype Error = Invalid | Other

  /** A process under a kernel that knows the capabilities up to `last`; a faultless kernel fails only by its rules. */
  class Process {
    const last: nat
    const faultless: bool
    var credentials: Credentials
    // how many more user namespaces may be entered, if there is a limit
    var left: Option<nat>

    /** `clone3` with `CLONE_NEWUSER`. */
    constructor (last: nat, faultless: bool)
      ensures this.last == last && this.faultless == faultless && credentials == Reset(last) && left == None
    {
      left := None;
      this.last := last;
      this.faultless := faultless;
      this.credentials := Reset(last);
    }

    /** Writes `max_user_namespaces`, which binds all namespaces below the one it is written in. */
    method LimitUserNamespaces(count: nat) returns (r: Result<(), Error>)
      modifies this`left
      ensures r == Ok(()) || (r == Err(Other) && !faultless)
      ensures left == if r.Ok? then Some(count) else old(left)
    {
      var works: bool := *;
      if !works && !faultless {
        return Err(Other);
      }
      left := Some(count);
      return Ok(());
    }

    method UnshareUser() returns (r: Result<(), Error>)
      modifies this
      ensures r == Ok(()) || (r == Err(Other) && (!faultless || old(left) == Some(0)))
      ensures old(left) == Some(0) ==> r.Err?
      ensures credentials == if r.Ok? then Reset(last) else old(credentials)
      ensures left == if r.Ok? && old(left).Some? then Some(old(left).value - 1) else old(left)
    {
      var works: bool := *;
      if (!works && !faultless) || left == Some(0) {
        return Err(Other);
      }
      if left.Some? {
        left := Some(left.value - 1);
      }
      credentials := Reset(last);
      return Ok(());
    }

    /** `PR_CAPBSET_DROP` */
    method DropFromBounding(capability: nat) returns (r: Result<(), Error>)
      modifies this`credentials
      ensures r.Ok? ==> IsKnown(last, capability)
      ensures r == Err(Invalid) ==> !IsKnown(last, capability)
      ensures r == Err(Other) ==> !faultless || CAP_SETPCAP !in credentials.effective
      ensures r.Err? ==> credentials == old(credentials)
      ensures r.Ok? ==> credentials == After(old(credentials), Drop(capability))
    {
      var works: bool := *;
      if (!works && !faultless) || CAP_SETPCAP !in credentials.effective {
        return Err(Other);
      }
      if capability > last {
        return Err(Invalid);
      }
      credentials := After(credentials, Drop(capability));
      return Ok(());
    }

    /** `PR_CAP_AMBIENT_RAISE` */
    method RaiseIntoAmbient(capability: nat) returns (r: Result<(), Error>)
      modifies this`credentials
      ensures r.Ok? ==> IsKnown(last, capability)
      ensures r == Err(Invalid) ==> !IsKnown(last, capability)
      ensures r == Err(Other) ==> IsKnown(last, capability)
      ensures r == Err(Other) ==> !faultless || !Allowed(credentials, Raise(capability))
      ensures r.Err? ==> credentials == old(credentials)
      ensures r.Ok? ==> Allowed(old(credentials), Raise(capability))
      ensures r.Ok? ==> credentials == After(old(credentials), Raise(capability))
    {
      if capability > last {
        return Err(Invalid);
      }
      var works: bool := *;
      if (!works && !faultless) || !Allowed(credentials, Raise(capability)) {
        return Err(Other);
      }
      credentials := After(credentials, Raise(capability));
      return Ok(());
    }

    /** `capset` */
    method SetCapabilities(sets: CapabilitySets) returns (r: Result<(), Error>)
      modifies this`credentials
      ensures r.Ok? ==> MaySetTo(old(credentials), sets)
      ensures r.Err? ==> credentials == old(credentials) && !(faultless && MaySetTo(old(credentials), sets))
      ensures r.Err? ==> r.error == Other
      ensures r.Ok? ==> credentials.bounding == old(credentials).bounding
      ensures r.Ok? ==> credentials.permitted == Members(sets.permitted) * Known(last)
      ensures r.Ok? ==> credentials.inheritable == Members(sets.inheritable) * Known(last)
      ensures r.Ok? ==> credentials.effective == Members(sets.effective) * Known(last)
      ensures r.Ok? ==> credentials.ambient <= old(credentials).ambient
    {
      var (low, high) := IntoUserData(sets);
      var effective := Joined(low.effective, high.effective) * Known(last);
      var permitted := Joined(low.permitted, high.permitted) * Known(last);
      var inheritable := Joined(low.inheritable, high.inheritable) * Known(last);
      SplitRejoins(sets.effective);
      SplitRejoins(sets.permitted);
      SplitRejoins(sets.inheritable);
      var works: bool := *;
      if (!works && !faultless) || !MaySet(credentials, effective, permitted, inheritable) {
        return Err(Other);
      }
      credentials := Set(credentials, effective, permitted, inheritable);
      return Ok(());
    }

    predicate MaySetTo(c: Credentials, sets: CapabilitySets) {
      MaySet(
        c, Members(sets.effective) * Known(last), Members(sets.permitted) * Known(last),
        Members(sets.inheritable) * Known(last))
    }

    /** Stops at the first capability the kernel does not know, and has then lost nothing. */
    method DropBoundingSet(target: CapabilitySet) returns (r: Result<(), Error>)
      requires credentials.bounding <= Known(last) && last < BITS
      modifies this`credentials
      ensures credentials == old(credentials).(bounding := credentials.bounding)
      ensures old(credentials).bounding * Members(target) <= credentials.bounding <= old(credentials).bounding
      ensures r.Ok? ==> credentials.bounding == old(credentials).bounding * Members(target)
      ensures r.Err? ==> !faultless || CAP_SETPCAP !in credentials.effective
    {
      ghost var kept := Members(target);
      for capability := 0 to BITS
        invariant credentials == old(credentials).(bounding := credentials.bounding)
        invariant old(credentials).bounding * kept <= credentials.bounding <= old(credentials).bounding
        invariant forall c :: c in credentials.bounding && c < capability ==> c in kept
      {
        if Has(target, capability) {
          continue;
        }
        var dropped := DropFromBounding(capability);
        if dropped.Err? {
          if dropped.error == Invalid {
            break;
          }
          return dropped;
        }
      }
      return Ok(());
    }

    /** On an unknown capability every known one has been raised. */
    method SetAmbientCapabilities(target: CapabilitySet) returns (r: Result<(), Error>)
      requires last < BITS
      modifies this`credentials
      ensures credentials == old(credentials).(ambient := credentials.ambient)
      ensures old(credentials).ambient <= credentials.ambient
      ensures credentials.ambient <= old(credentials).ambient + Members(target) * Known(last)
      ensures r.Ok? ==> Members(target) <= Known(last)
      ensures r.Ok? ==> credentials.ambient == old(credentials).ambient + Members(target)
      ensures r == Err(Invalid) ==> !(Members(target) <= Known(last))
      ensures r == Err(Invalid) ==> credentials.ambient == old(credentials).ambient + Members(target) * Known(last)
      ensures r == Err(Other) && faultless ==>
        !(Members(target) * Known(last) <= credentials.permitted * credentials.inheritable)
    {
      ghost var wanted := Members(target);
      for capability := 0 to BITS
        invariant credentials == old(credentials).(ambient := credentials.ambient)
        invariant old(credentials).ambient <= credentials.ambient <= old(credentials).ambient + wanted * Known(last)
        invariant forall c :: c in wanted && c < capability ==> c in credentials.ambient && c in Known(last)
      {
        if Has(target, capability) {
          assert capability in wanted;
          var raised := RaiseIntoAmbient(capability);
          if raised.Err? {
            assert IsKnown(last, capability) ==> capability in wanted * Known(last);
            return raised;
          }
        }
      }
      return Ok(());
    }

    /**
      * The capability steps of the guest in their order, from the clone to the exec. It succeeds only sealed, and
      * under a faultless kernel exactly for the targets the kernel knows. With user namespaces disabled no further
      * one can be entered.
      */
    method Prepare(target: CapabilitySet, disableUserns: bool) returns (r: Result<(), Error>)
      requires credentials == Reset(last) && left == None && CAP_SETPCAP <= last < BITS
      modifies this
      ensures r.Ok? ==> left == if disableUserns then Some(0) else None
      ensures r.Ok? ==> Members(target) <= Known(last) && Sealed(credentials, Members(target))
      ensures r.Ok? ==> credentials.bounding == Members(target) && credentials.permitted == Members(target)
      ensures r.Ok? ==> credentials.inheritable == Members(target) && credentials.ambient == Members(target)
      ensures r.Ok? ==> credentials.effective == {}
      ensures faultless ==> (r.Ok? <==> forall c :: c in Members(target) ==> c <= last)
    {
      var _ :- DropBoundingSet(target);
      if disableUserns {
        var _ :- LimitUserNamespaces(1);
        var _ :- UnshareUser();
        var _ :- DropBoundingSet(target);
      }
      NoMembers();
      var _ :- SetCapabilities(CapabilitySets(0, target, target));
      ghost var wanted := Members(target) * Known(last);
      assert credentials.permitted * credentials.inheritable == wanted;
      assert credentials.ambient == {};
      r := SetAmbientCapabilities(target);
      assert r != Err(Other) || !faultless;
      assert r.Err? ==> r.error.Invalid? || r.error.Other?;
    }
  }
}
