/**
 * The slice of the `argon2` / `password_hash` crates that `Password` calls.
 *
 * The hashing algorithm, the PHC string format and salt generation belong to
 * those crates, not to this library, so they enter the model as a value: a
 * `Backend` bundles the operations `Password::hash` and `Password::verify`
 * call, and every property below holds for every backend.
 */
module Argon2 {
  import opened Wrappers
  import opened Bytes

  /** `password_hash::Salt`: a B64-encoded salt string. */
  datatype Salt = Salt(b64: string)

  /**
   * The crate calls `Password` makes, over the crate's own types:
   * `Config` is `Argon2` (algorithm, version and cost parameters),
   * `Phc` is `PasswordHash` (a parsed PHC record), `Error` is
   * `password_hash::Error`.
   */
  datatype Backend<!Config, !Phc, Error> = Backend(
    /** `Argon2::default()`. */
    defaultConfig: Config,
    /** `PasswordHasher::hash_password(&argon2, bytes, salt)`. */
    hashPassword: (Config, seq<uint8>, Salt) -> Result<Phc, Error>,
    /** `PasswordHash::to_string()`: the self-describing PHC string. */
    phcString: Phc -> string,
    /** `PasswordHash::new(&str)`: parses a PHC string. */
    parsePhc: string -> Result<Phc, Error>,
    /** `PasswordVerifier::verify_password(&argon2, bytes, &hash)`. */
    verifyPassword: (Config, seq<uint8>, Phc) -> Result<(), Error>)

  /** `Option<Argon2>::unwrap_or_default()`. */
  function Configured<C, P, E>(backend: Backend<C, P, E>, argon2: Option<C>): (c: C)
    ensures argon2.None? ==> c == backend.defaultConfig
    ensures argon2.Some? ==> c == argon2.value
  {
    argon2.GetOr(backend.defaultConfig)
  }

  /**
   * What the crate promises and the library's own test relies on: a PHC
   * string produced for some bytes parses back, and the same bytes verify
   * against it under the same configuration.
   */
  ghost predicate RoundTrips<C, P, E>(backend: Backend<C, P, E>, config: C)
  {
    forall bytes, salt ::
      backend.hashPassword(config, bytes, salt).Success? ==>
        var phc := backend.phcString(backend.hashPassword(config, bytes, salt).value);
        backend.parsePhc(phc).Success? &&
        backend.verifyPassword(config, bytes, backend.parsePhc(phc).value).Success?
  }

  /**
   * No false matches: a PHC string produced for `bytes` accepts no other
   * byte sequence.
   */
  ghost predicate Discriminates<C, P, E>(backend: Backend<C, P, E>, config: C)
  {
    forall bytes, other, salt ::
      backend.hashPassword(config, bytes, salt).Success? &&
      backend.parsePhc(backend.phcString(backend.hashPassword(config, bytes, salt).value)).Success? &&
      backend.verifyPassword(config, other,
        backend.parsePhc(backend.phcString(backend.hashPassword(config, bytes, salt).value)).value).Success?
      ==> other == bytes
  }
}
