/**
 * The process-wide hash-algorithm registry of plumbing/hash/hash.go,
 * modelled as pure transitions over the map it holds. Hasher
 * constructors are opaque tokens: the digest computation behind them is
 * not part of this model.
 */
module HashRegistry {
  import opened Wrappers

  /** A `crypto.Hash` identifier, numbered as Go's crypto package numbers them. */
  type HashId = nat

  const SHA1: HashId := 3
  const SHA256: HashId := 5

  /** The identifiers the registry accepts. */
  const Supported: set<HashId> := {SHA1, SHA256}

  /** An opaque hasher constructor (`func() hash.Hash`). */
  datatype Ctor =
    | Sha1cdNew          // the collision-detecting SHA-1 of the sha1cd package
    | CryptoSha256New    // crypto.SHA256.New
    | Custom(id: nat)    // any constructor a caller registers

  /** A fresh hasher instance, identified by the constructor that made it. */
  datatype Hasher = Instance(madeBy: Ctor)

  /** The `algos` map. */
  type Registry = map<HashId, Ctor>

  /** Repository object formats (`format.ObjectFormat`). */
  datatype ObjectFormat = FormatSHA1 | FormatSHA256 | FormatOther

  datatype Error =
    | NilConstructor                        // "cannot register hash: f is nil"
    | UnsupportedHashFunction(h: HashId)    // wraps ErrUnsupportedHashFunction
    | InvalidObjectFormat                   // format.ErrInvalidObjectFormat

  /** The registry after a `RegisterHash` call, and the error it returned (None is nil). */
  datatype Registered = Registered(reg: Registry, err: Option<Error>)

  /** The domain invariant: exactly the two supported identifiers are registered. */
  predicate Complete(reg: Registry)
  {
    reg.Keys == Supported
  }

  /** `reset`: (re)installs the two default constructors. */
  function Reset(reg: Registry): (r: Registry)
    ensures r.Keys == reg.Keys + Supported
    ensures SHA1 in r && r[SHA1] == Sha1cdNew
    ensures SHA256 in r && r[SHA256] == CryptoSha256New
    ensures forall h :: h in reg && h !in Supported ==> h in r && r[h] == reg[h]
  {
    reg[SHA1 := Sha1cdNew][SHA256 := CryptoSha256New]
  }

  /** The registry as `init` leaves it: `reset` applied to the empty map. */
  function Initial(): (r: Registry)
    ensures Complete(r)
    ensures r[SHA1] == Sha1cdNew && r[SHA256] == CryptoSha256New
  {
    Reset(map[])
  }

  /** Running `reset` twice leaves the map as one run left it. */
  lemma ResetIdempotent(reg: Registry)
    ensures Reset(Reset(reg)) == Reset(reg)
    ensures Complete(reg) ==> Complete(Reset(reg))
  {
  }

  /** `RegisterHash(h, f)`. */
  function RegisterHash(reg: Registry, h: HashId, f: Option<Ctor>): (r: Registered)
    // a nil constructor is refused first, whatever the identifier
    ensures f.None? ==> r == Registered(reg, Some(NilConstructor))
    // an unsupported identifier is refused with the wrapped sentinel error
    ensures f.Some? && h !in Supported ==> r == Registered(reg, Some(UnsupportedHashFunction(h)))
    // otherwise the entry is overridden and nothing else changes
    ensures f.Some? && h in Supported ==>
      && r.err.None?
      && h in r.reg && r.reg[h] == f.value
      && r.reg.Keys == reg.Keys + {h}
      && (forall k :: k in reg && k != h ==> k in r.reg && r.reg[k] == reg[k])
    ensures r.err.None? <==> f.Some? && h in Supported
  {
    if f.None? then Registered(reg, Some(NilConstructor))
    else if h == SHA1 then Registered(reg[h := f.value], None)
    else if h == SHA256 then Registered(reg[h := f.value], None)
    else Registered(reg, Some(UnsupportedHashFunction(h)))
  }

  /** Neither `reset` nor `RegisterHash` ever leaves the domain {SHA1, SHA256}. */
  lemma TransitionsKeepComplete(reg: Registry, h: HashId, f: Option<Ctor>)
    requires Complete(reg)
    ensures Complete(Reset(reg))
    ensures Complete(RegisterHash(reg, h, f).reg)
  {
  }

  /** `New(h)`: panics unless `h` is registered, so that is demanded of the caller. */
  function New(reg: Registry, h: HashId): (r: Hasher)
    requires h in reg
    ensures r.madeBy == reg[h]
  {
    Instance(reg[h])
  }

  /** `FromObjectFormat(f)`: the hasher for a repository's object format. */
  function FromObjectFormat(reg: Registry, f: ObjectFormat): (r: Result<Hasher, Error>)
    requires Complete(reg)
    ensures f == FormatSHA1 ==> r == Success(Instance(reg[SHA1]))
    ensures f == FormatSHA256 ==> r == Success(Instance(reg[SHA256]))
    ensures f.FormatOther? ==> r == Failure(InvalidObjectFormat)
  {
    match f
    case FormatSHA1 => Success(New(reg, SHA1))
    case FormatSHA256 => Success(New(reg, SHA256))
    case FormatOther => Failure(InvalidObjectFormat)
  }

  /** One configuration-time call on the registry. */
  datatype Call = ResetCall | RegisterCall(h: HashId, f: Option<Ctor>)

  /** One call applied to the registry. */
  function Apply(reg: Registry, c: Call): Registry
  {
    match c
    case ResetCall => Reset(reg)
    case RegisterCall(h, f) => RegisterHash(reg, h, f).reg
  }

  /** The registry after `init` and then the calls in order. */
  function Run(calls: seq<Call>): Registry
  {
    if |calls| == 0 then Initial() else Apply(Run(calls[..|calls| - 1]), calls[|calls| - 1])
  }

  /** Every registry reachable from `init` keeps the domain {SHA1, SHA256}. */
  lemma {:induction false} RunComplete(calls: seq<Call>)
    ensures Complete(Run(calls))
  {
    if |calls| > 0 {
      RunComplete(calls[..|calls| - 1]);
      var c := calls[|calls| - 1];
      TransitionsKeepComplete(Run(calls[..|calls| - 1]), if c.RegisterCall? then c.h else 0,
                              if c.RegisterCall? then c.f else None);
    }
  }

  /**
   * The process lifetime: `init`, the configuration calls, then a lookup by
   * object format. The lookup never reaches `New`'s panic.
   */
  method ConfigureAndResolve(calls: seq<Call>, f: ObjectFormat) returns (reg: Registry, r: Result<Hasher, Error>)
    ensures Complete(reg)
    ensures reg == Run(calls)
    ensures f.FormatOther? <==> r.Failure?
    ensures r.Failure? ==> r.error == InvalidObjectFormat
    ensures f == FormatSHA1 ==> r == Success(Instance(reg[SHA1]))
    ensures f == FormatSHA256 ==> r == Success(Instance(reg[SHA256]))
  {
    reg := Initial();
    var i := 0;
    while i < |calls|
      invariant 0 <= i <= |calls|
      invariant Complete(reg)
      invariant reg == Run(calls[..i])
    {
      assert calls[..i + 1][..i] == calls[..i];
      reg := Apply(reg, calls[i]);
      i := i + 1;
    }
    assert calls[..i] == calls;
    r := FromObjectFormat(reg, f);
  }
}
