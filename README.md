# tag_password in Dafny

A model of the Rust library `tag_password`: a `Password<T>` that wraps one
`String` and is tagged, at the type level only, with the marker `Plain`
(clear text) or `Hashed` (an Argon2 PHC string). The tag decides what a
value admits:

- in any state: `new`, `From<String>`, `Into<String>`, `as_bytes`, `Display`
  and the GraphQL scalar adapter (`parse`, `to_value`, `as_raw_value`);
- only on `Plain`: `hash` and the unchecked relabel `as_hashed`;
- only on `Hashed`: `verify` and the unchecked relabel `as_plain`.

The tag is a phantom type parameter here too (`datatype Password<State>`),
so Dafny's type checker refuses `Hash` on a `Password<Hashed>` exactly as
rustc does. There is no runtime state to check.

Files:

- `wrappers.dfy` (`Wrappers`): `Option` and `Result`.
- `bytes.dfy` (`Bytes`): `uint8`, Rust's `u8`.
- `utf8.dfy` (`Utf8`): the byte view of a string. A Rust `String` is UTF-8
  and `as_bytes` returns that buffer. A Dafny `string` is a sequence of
  Unicode scalar values, so the byte view is the UTF-8 encoding. The module
  defines the encoder and a strict decoder, and proves they are inverses.
- `argon2.dfy` (`Argon2`): the `argon2`/`password_hash` crate calls that
  `hash` and `verify` make, bundled as a value `Backend`. It holds the
  default configuration, `hash_password`, `PasswordHash::to_string`,
  `PasswordHash::new` and `verify_password`. Every property holds for every
  backend. Two predicates describe backends, and lemmas that rely on them
  take them as `requires`. `RoundTrips` is what the crate promises: a PHC
  string made for some bytes parses and verifies those bytes.
  `Discriminates` (it verifies no other bytes) is an idealisation: Argon2's
  output has a fixed length, so collisions exist and are only
  computationally hard to find. `TagPassword.OtherPasswordRejected` shows
  that the wrapper adds no collisions of its own, because distinct strings
  have distinct byte views.
- `password.dfy` (`TagPassword`): `Password<State>`, its operations, and the
  lemmas relating them.
- `graphql.dfy` (`GraphQL`): the `InputType` implementation.

`Display` writes the stored text verbatim in both states, so a `Plain`
password is printed in clear text. The model keeps that behaviour because
the code has it (`TagPassword.Display`). It does not redact.

`verify` in src/lib.rs:155-163 sits outside the `argon2` feature gate that
`hash` has, although it calls the crate. The model treats both as present.

## Model

| member | source | states |
|---|---|---|
| `TagPassword.New` | src/lib.rs:93-95 | the password holds `v` unchanged, and its byte view decodes as UTF-8 back to exactly `v` |
| `TagPassword.FromString` | src/lib.rs:213-218 | `From<String>` holds the string unchanged and is the same password as `new` on it |
| `TagPassword.IntoThenFrom` | src/lib.rs:166-171 | unwrapping with `Into<String>` and wrapping again gives the same password |
| `TagPassword.IntoString` | src/lib.rs:166-171 | the string handed out is exactly the text whose UTF-8 bytes `as_bytes` exposes; with `New`, `FromString` (both `IntoString(p) == v`) and `IntoThenFrom` it completes the wrap/unwrap round trip |
| `TagPassword.AsBytes` | src/lib.rs:100-102 | the bytes returned are well-formed UTF-8 and decode to exactly the stored string |
| `TagPassword.Display` | src/lib.rs:227-232 | `Display` shows the stored string verbatim in either state, clear text included |
| `TagPassword.AsHashed` | src/lib.rs:109-111 | relabelling to `Hashed` keeps the stored string and bytes, and `as_plain` undoes it |
| `TagPassword.AsPlain` | src/lib.rs:142-144 | relabelling to `Plain` keeps the stored string and bytes |
| `TagPassword.RelabelRoundTrip` | src/lib.rs:142-144 | `as_hashed(as_plain(h))` is `h`, with the same stored string |
| `TagPassword.Hash` | src/lib.rs:121-133 | succeeds exactly when the backend's `hash_password` on the stored bytes, salt and chosen configuration succeeds; on success the new `Hashed` password holds the backend's PHC string verbatim; on failure the backend's error is returned unchanged |
| `TagPassword.HashDefaultsConfig` | src/lib.rs:127-132 | `hash` with `None` is `hash` with the backend's default configuration |
| `TagPassword.Verify` | src/lib.rs:155-163 | a stored string that does not parse gives that parse error; otherwise the result is exactly the backend's verification of the candidate's bytes against the parsed record |
| `TagPassword.VerifyDefaultsConfig` | src/lib.rs:160-162 | `verify` with `None` is `verify` with the backend's default configuration |
| `TagPassword.VerifyParsesFirst` | src/lib.rs:160-162 | when parsing fails, the result is that error whatever the backend's verifier is: the verifier is never consulted and no false match is possible |
| `TagPassword.HashThenVerify` | src/lib.rs:242-253 | for a backend whose PHC strings round-trip, verifying `p` against `hash(p)` succeeds |
| `TagPassword.OtherPasswordRejected` | src/lib.rs:155-163 | for an idealised backend without false matches, a password whose text differs from `p` fails to verify against `hash(p)` |
| `Argon2.Configured` | src/lib.rs:128-129 | `unwrap_or_default`: the given configuration, or the default one when `None` |
| `Utf8.Encode` | src/lib.rs:100-102 | the byte view of `s` has between one and four bytes per character |
| `Utf8.DecodeEncode` | src/lib.rs:100-102 | decoding the byte view of a string gives back that string |
| `Utf8.EncodeDecode` | src/lib.rs:100-102 | a byte sequence that decodes to `s` is exactly the byte view of `s` |
| `Utf8.DecodeIffEncode` | src/lib.rs:100-102 | bytes decode to `s` if and only if they are the byte view of `s` |
| `Utf8.EncodeInjective` | src/lib.rs:100-102 | distinct strings have distinct byte views |
| `GraphQL.Parse` | src/lib.rs:193-202 | a missing value fails with the library's message "A password must have a value.", a present non-string value with "A password must be a String.", a string gives a password holding that text, and nothing else succeeds |
| `GraphQL.ToValue` | src/lib.rs:204-206 | the value written parses back to the same password |
| `GraphQL.AsRawValue` | src/lib.rs:208-210 | the raw value is always present, and parsing it as a string gives back the same password |
| `GraphQL.WireFormForgetsState` | src/lib.rs:193-206 | a password written in one state parses, with the same text, as a password in any state |

## Left out

- The Argon2 algorithm, the PHC string format, salt generation and `OsRng`:
  these belong to the `argon2`, `password_hash` and `rand_core` crates. The
  model takes them as the `Backend` value and the `Salt` string.
- Conversion of the `salt` argument through `Into<Salt>`: the model takes a
  `Salt` directly, as the conversion happens in the caller's type.
- The `impl Into<Password<Plain>>` candidate of `verify`: the model takes a
  `Password<Plain>`; a `String` candidate is `FromString` of it.
- `Debug` (src/lib.rs:220-225): its quoting and escaping are Rust's `{:?}`
  formatting of `str`, not this library's code.
- `InputType::create_type_info` (src/lib.rs:181-191): it fills a registry
  record in `async_graphql`. Only the scalar's name, `GraphQL.TypeName`, is
  kept.
- The serde and `Clone` derives (src/lib.rs:81-82): generated code with no
  visible logic.
- The `Send + Sync` bounds on the GraphQL impl: there is no concurrency here.
- `GraphQL.Parse`: the modelled error is the library's own message; the
  wrapping that `async_graphql` applies when it converts that message into
  an `InputValueError` belongs to that crate and is not modelled.
- `GraphQL.Value`: `Number` holds an integer; JSON floating-point numbers are
  not modelled, which does not matter to `parse`, which rejects every number.
