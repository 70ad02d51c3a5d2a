# Application reverse-domain names, modelled in Dafny

This project models the core of a small Rust library that names software
applications by reverse-domain-name identifiers (RDNs) such as
`com.example.app`.

- `ApplicationRDN::new` validates a candidate name against five rules and
  returns either the identifier or the single error `InvalidName`:
  1. the name is 1 to 255 bytes long;
  2. it contains a `.`;
  3. splitting it on `.` gives no empty segment;
  4. no segment starts with a numeric character;
  5. it contains only alphanumerics, `_` and `.`.
- `ApplicationRDN::name` returns the stored name.
- `Application::new` builds an immutable record from an RDN, a UUID, an
  optional homepage URL, an optional description and an optional
  `ApplicationsType` (`Client` or `Server`). Its accessors return those parts.

Layout:

- `wrappers.dfy` (`Wrappers`): `Result` and `Option`.
- `text.dfy` (`Text`) holds three things:
  - the character classes;
  - the UTF-8 byte length that Rust's `String::len` reports;
  - `Count`, the model of `iter().filter(p).count()`.
- `segments.dfy` (`Segments`) holds:
  - `Split`, the model of `str::split(char)`;
  - its inverse `Join`;
  - the two round-trip lemmas between them.
- `reverse_domain.dfy` (`ReverseDomain`) holds:
  - the five rules, stated declaratively over character positions (`IsValidName`);
  - the `ApplicationRdn` datatype, with `Rdn`, the subset type of validated identifiers;
  - the constructor `New`, which performs the checks in the source's order;
  - the proof that `New` accepts exactly the names satisfying `IsValidName`;
  - one rejection lemma per rule, plus concrete examples.
- `applications.dfy` (`Applications`) holds the aggregate. Its RDN field has
  type `Rdn`, so it can only hold a validated identifier.

`String::len` counts UTF-8 bytes; `ByteLen` models that. `is_numeric` and
`is_alphanumeric` are modelled as the ASCII digits and the ASCII letters and
digits (see "Left out"). `ValidNameSegments` proves that a valid name is pure
ASCII, so its byte length equals its character length.

## Model

| member | source | states |
|---|---|---|
| `ReverseDomain.New` | src/application.rs:20-46 | `New` succeeds exactly when the name satisfies all five rules, stated independently over character positions; on success the stored name is the input, unchanged |
| `ReverseDomain.SegmentsAcceptable` | src/application.rs:29-37 | the early-exit loop over the segments succeeds exactly when every segment is non-empty and its first character is not numeric; the first character is read only after the emptiness test, so the loop cannot fail on an index |
| `ReverseDomain.SegmentsMatchRules` | src/application.rs:29-37 | the segment loop over `split('.')` succeeds exactly when every segment start is followed by a character that is neither `.` nor numeric (rules 3 and 4 over positions), proved by induction over the split |
| `ReverseDomain.NameRoundTrip` | src/application.rs:43-50 | `name()` of an accepted identifier is the input exactly, and validating that name again yields the same identifier |
| `ReverseDomain.RejectsLengthOutOfBounds` | src/application.rs:21-23 | the empty name and any name over 255 bytes give `InvalidName` |
| `ReverseDomain.RejectsMissingSeparator` | src/application.rs:25-27 | a name with no `.` gives `InvalidName` |
| `ReverseDomain.RejectsEmptySegment` | src/application.rs:29-32 | a name whose `.`-split has an empty segment gives `InvalidName` |
| `ReverseDomain.RejectsLeadingSeparator` | src/application.rs:29-32 | a leading `.` gives `InvalidName` |
| `ReverseDomain.RejectsTrailingSeparator` | src/application.rs:29-32 | a trailing `.` gives `InvalidName` |
| `ReverseDomain.RejectsDoubledSeparator` | src/application.rs:29-32 | `..` anywhere gives `InvalidName` |
| `ReverseDomain.RejectsNumericLead` | src/application.rs:34-36 | a segment whose first character is numeric gives `InvalidName` |
| `ReverseDomain.RejectsForbiddenChar` | src/application.rs:39-41 | any character other than an alphanumeric, `_` or `.` gives `InvalidName` |
| `ReverseDomain.ValidNameSegments` | src/application.rs:20-46 | a valid name is at most 255 characters, all ASCII; it splits into at least two segments, each non-empty, not numeric-led and made only of alphanumerics and `_` |
| `ReverseDomain.JoinOfGoodSegmentsIsValid` | src/application.rs:20-46 | the converse: joining two or more non-empty, non-numeric-led segments of alphanumerics and `_` with `.` gives a name that is valid and accepted, provided it fits in 255 characters |
| `ReverseDomain.AcceptsExample` | src/application.rs:20-46 | `com.example.app` is accepted and its name is returned unchanged |
| `ReverseDomain.AcceptsUnderscoresAndInnerDigits` | src/application.rs:34-41 | `_a.b_1.c2` is accepted: `_` may lead a segment and digits may follow the first character |
| `ReverseDomain.RejectsNameWithoutSeparator` | src/application.rs:25-27 | `app` is rejected |
| `ReverseDomain.RejectsNameWithEmptySegment` | src/application.rs:29-32 | `com..app` is rejected |
| `ReverseDomain.RejectsNameWithNumericLead` | src/application.rs:34-36 | `com.1app` is rejected |
| `ReverseDomain.RejectsNameWithHyphen` | src/application.rs:39-41 | `com.ex-ample` is rejected |
| `ReverseDomain.LengthBoundary` | src/application.rs:21-23 | a valid 255-byte name is accepted; the same shape at 256 bytes is rejected |
| `Text.ByteLen` | src/application.rs:21 | the byte length of a string lies between its character count and four times it; it equals the character count exactly when every character is ASCII |
| `Text.Count` | src/application.rs:25 | a filtered count is at most the length, and it is zero exactly when no element satisfies the filter (used for both `filter(..).count()` tests, lines 25 and 39) |
| `Segments.Split` | src/application.rs:29 | `split` always yields at least one piece, and no piece contains the separator |
| `Segments.JoinSplit` | src/application.rs:29 | joining the pieces of a split with the separator gives back the input |
| `Segments.SplitJoin` | src/application.rs:29 | splitting a join of separator-free pieces gives back the pieces |
| `Segments.SplitHasManyPieces` | src/application.rs:25-29 | a split has more than one piece exactly when the separator occurs |
| `Applications.New` | src/application.rs:64-92 | building an application cannot fail; each accessor returns the part it was built from |
| `Applications.RdnOfApplicationIsValid` | src/application.rs:56 | the RDN held by any application built from an accepted RDN satisfies the naming rules, and re-validating its name gives back the same identifier |
| `Applications.NewWithoutOptionalParts` | src/application.rs:64-92 | an application built from a validated name with no homepage, description or kind reports the original name, the given identifier and three absent optionals |

## Left out

- `Text.IsNumeric` / `Text.IsAlphanumeric`: Rust's `is_numeric` and `is_alphanumeric` follow the full Unicode tables. Here they are restricted to ASCII digits and letters, because the tables are large data and not logic. On ASCII input the two agree. So every name the model accepts is accepted by the library. The model rejects some names the library accepts, such as ones with a non-ASCII letter like `é`.
- The derived `Default` for `ApplicationRDN` and `Application`: it produces an empty name that breaks rule 1. The `Rdn` subset type admits only validated names, so the default value is not modelled.
- Serde `Serialize` / `Deserialize` and `#[serde(skip)]` on the RDN field: the field is skipped, so a deserialised `Application` holds the empty default RDN, whose name breaks rule 1. The model's `Rdn` field cannot represent that value, and the wire format itself is not modelled. `ApplicationRDN` also derives `Deserialize` itself, so serde can build one with any name without going through `new`, and `Application::new` accepts it. That is a second way around validation besides `Default`. The model's `Rdn` subset type rules both out.
- Applications.RdnOfApplicationIsValid: covers only applications built from an RDN that `New` accepted, not a deserialised `Application`, whose RDN is the empty default.
- The derived `Debug`, `Clone`, `PartialEq`, `Ord` and `Hash` traits: boilerplate.
- `uuid::Uuid` is modelled as an opaque 128-bit number. `url::Url` is a type parameter. Their parsing and formatting are not part of this model.
- Borrowing: `name()` and `rdn()` return references. `homepage()`, `description()` and `app_type()` return `Option<&T>`. `id()` returns a copy. The model returns values throughout.
