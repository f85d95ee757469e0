/**
 * `Password<T>`: a string tagged, at the type level only, with whether it
 * holds clear text (`Plain`) or an encoded hash (`Hashed`).
 *
 * The tag is a phantom type parameter exactly as in the Rust struct: it has
 * no runtime representation, and which operations a value admits is decided
 * by its type. `Hash` and `AsHashed` accept only `Password<Plain>`; `Verify`
 * and `AsPlain` accept only `Password<Hashed>`; everything else is generic.
 */
module TagPassword {
  import opened Wrappers
  import opened Bytes
  import opened Utf8
  import opened Argon2

  /** Marker: the password is known to be an encoded hash. */
  datatype Hashed = Hashed

  /** Marker: the password is clear text. */
  datatype Plain = Plain

  /** The tuple struct `Password<T>(PhantomData<T>, String)`. */
  datatype Password<State> = Password(value: string)

  /** `Password::new`: wraps a string, in whatever state the caller names. */
  function New<State>(v: string): (p: Password<State>)
    ensures IntoString(p) == v
    ensures Decode(AsBytes(p)) == Some(v)
  {
    Password(v)
  }

  /** `From<String>`: the same wrapping as `New`. */
  function FromString<State>(v: string): (p: Password<State>)
    ensures IntoString(p) == v
    ensures p == New(v)
  {
    Password(v)
  }

  /** `Into<String>`: unwraps the stored string. */
  function IntoString<State>(p: Password<State>): (s: string)
    ensures Decode(AsBytes(p)) == Some(s)
  {
    p.value
  }

  /** Unwrapping a password and wrapping the string again gives the same password. */
  lemma IntoThenFrom<State>(p: Password<State>)
    ensures FromString(IntoString(p)) == p
  {
  }

  /** `as_bytes`: the UTF-8 bytes of the stored string. */
  function AsBytes<State>(p: Password<State>): (bs: seq<uint8>)
    ensures Decode(bs) == Some(p.value)
  {
    DecodeEncode(p.value);
    Encode(p.value)
  }

  /** `Display`: writes the stored string verbatim, in either state. */
  function Display<State>(p: Password<State>): (s: string)
    ensures s == IntoString(p)
  {
    p.value
  }

  /**
   * `unsafe fn as_hashed`: relabels clear text as a hash. Nothing is hashed;
   * the caller vouches that the text already is an encoded hash.
   */
  function AsHashed(p: Password<Plain>): (h: Password<Hashed>)
    ensures IntoString(h) == IntoString(p)
    ensures AsBytes(h) == AsBytes(p)
    ensures AsPlain(h) == p
  {
    New(p.value)
  }

  /**
   * `unsafe fn as_plain`: relabels a hash as clear text. The stored string is
   * still the encoded hash; the caller vouches for what it means.
   */
  function AsPlain(h: Password<Hashed>): (p: Password<Plain>)
    ensures IntoString(p) == IntoString(h)
    ensures AsBytes(p) == AsBytes(h)
  {
    New(h.value)
  }

  /**
   * `hash`: hashes the stored bytes with the given configuration, or the
   * default one, and wraps the backend's PHC string as a `Hashed` password.
   * A backend error is returned as it is.
   */
  function Hash<C, P, E>(p: Password<Plain>, backend: Backend<C, P, E>, argon2: Option<C>, salt: Salt)
    : (r: Result<Password<Hashed>, E>)
    ensures var out := backend.hashPassword(Configured(backend, argon2), AsBytes(p), salt);
      && (r.Success? <==> out.Success?)
      && (r.Success? ==> IntoString(r.value) == backend.phcString(out.value))
      && (r.Failure? ==> r.error == out.error)
  {
    var v := AsBytes(p);
    match backend.hashPassword(Configured(backend, argon2), v, salt)
    case Failure(e) => Failure(e)
    case Success(phc) => Success(New(backend.phcString(phc)))
  }

  /**
   * `verify`: parses the stored PHC string, then asks the backend to check
   * the candidate's bytes against it. A parse error is returned before the
   * backend's verifier is reached; otherwise the verifier's answer is the
   * answer.
   */
  function Verify<C, P, E>(h: Password<Hashed>, backend: Backend<C, P, E>, argon2: Option<C>, plain: Password<Plain>)
    : (r: Result<(), E>)
    ensures backend.parsePhc(IntoString(h)).Failure? ==>
      r.Failure? && r.error == backend.parsePhc(IntoString(h)).error
    ensures backend.parsePhc(IntoString(h)).Success? ==>
      r == backend.verifyPassword(Configured(backend, argon2), AsBytes(plain), backend.parsePhc(IntoString(h)).value)
  {
    var config := Configured(backend, argon2);
    match backend.parsePhc(h.value)
    case Failure(e) => Failure(e)
    case Success(phc) => backend.verifyPassword(config, AsBytes(plain), phc)
  }

  /** Relabelling a hash as clear text and back leaves it as it was. */
  lemma RelabelRoundTrip(h: Password<Hashed>)
    ensures AsHashed(AsPlain(h)) == h
    ensures IntoString(AsPlain(h)) == IntoString(h)
  {
  }

  /** Passing `None` to `hash` is passing the default configuration. */
  lemma HashDefaultsConfig<C, P, E>(p: Password<Plain>, backend: Backend<C, P, E>, salt: Salt)
    ensures Hash(p, backend, None, salt) == Hash(p, backend, Some(backend.defaultConfig), salt)
  {
  }

  /** Passing `None` to `verify` is passing the default configuration. */
  lemma VerifyDefaultsConfig<C, P, E>(h: Password<Hashed>, backend: Backend<C, P, E>, plain: Password<Plain>)
    ensures Verify(h, backend, None, plain) == Verify(h, backend, Some(backend.defaultConfig), plain)
  {
  }

  /**
   * When the stored string does not parse, the backend's verifier is never
   * consulted: swapping it for any other function changes nothing, and the
   * result is a failure, never a match.
   */
  lemma VerifyParsesFirst<C, P, E>(h: Password<Hashed>, backend: Backend<C, P, E>, argon2: Option<C>,
                                      plain: Password<Plain>, verifier: (C, seq<uint8>, P) -> Result<(), E>)
    requires backend.parsePhc(IntoString(h)).Failure?
    ensures Verify(h, backend, argon2, plain) == Verify(h, backend.(verifyPassword := verifier), argon2, plain)
    ensures Verify(h, backend, argon2, plain) == Failure(backend.parsePhc(IntoString(h)).error)
  {
  }

  /**
   * The library's own test: hashing a clear-text password and verifying the
   * same password against the hash succeeds, for a backend whose PHC strings
   * round-trip.
   */
  lemma HashThenVerify<C, P, E>(p: Password<Plain>, backend: Backend<C, P, E>, argon2: Option<C>, salt: Salt)
    requires RoundTrips(backend, Configured(backend, argon2))
    requires Hash(p, backend, argon2, salt).Success?
    ensures Verify(Hash(p, backend, argon2, salt).value, backend, argon2, p).Success?
  {
  }

  /**
   * A different clear-text password does not verify against the hash of
   * `p`, for a backend without false matches: distinct strings have
   * distinct byte views.
   */
  lemma OtherPasswordRejected<C, P, E>(p: Password<Plain>, q: Password<Plain>, backend: Backend<C, P, E>,
                                       argon2: Option<C>, salt: Salt)
    requires Discriminates(backend, Configured(backend, argon2))
    requires Hash(p, backend, argon2, salt).Success?
    requires IntoString(q) != IntoString(p)
    ensures Verify(Hash(p, backend, argon2, salt).value, backend, argon2, q).Failure?
  {
    // `AsBytes` is injective: both byte views decode back to their own text.
    assert AsBytes(q) != AsBytes(p);
  }
}
