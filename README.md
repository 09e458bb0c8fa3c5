# sslinfo capability prober, modelled in Dafny

sslinfo reports what a TLS server supports. It has three stages, and this
project models and proves the decision and aggregation logic behind them.

- **Protocol probe** (`lib/method.js`). One pinned-version handshake runs for
  each of the five methods in the method table (SSLv2 to TLSv1.2). Each
  handshake is classified from how it ended: it completed, the connection
  was reset, no ciphers were available, the "wrong version" test passed, or
  `tls.connect` threw. The results are stored on the host record in table
  order.
- **Cipher probe and cipher matrix** (`lib/cipher.js`). For every protocol
  whose own probe was enabled, one `openssl s_client` run is made per entry of
  the 118-suite cipher catalog. Each run's error text and output are
  classified as enabled, disabled or unsupported by a prioritised chain of
  substring tests. The outcomes are then folded, in order, into a map from
  protocol to three cipher lists.
- **Local capability report** (`lib/opensslinfo.js`). This stage reads the
  installed openssl's version, probes the methods against a reference host
  and splits the results into supported and unsupported. It then splits
  `openssl ciphers` output on `:` and takes the catalog ciphers missing from
  that list as unsupported.

Modules, one per concern:

- `Promises`:
  - `Option`, and `Settlement` (one resolve or reject call);
  - `FirstSettle`: a Q deferred takes the fate of its first settle call;
  - `All`: `Q.all` over settled promises;
  - `Flatten`: underscore's flatten, which on rows of promises removes exactly
    one level.
- `Text`: the JavaScript string and list built-ins the core uses, with their
  specifications:
  - `indexOf`, and `trim` over the ECMAScript white-space set;
  - `split` on one character, and `join`;
  - lodash's `difference`.
- `Reports`:
  - the records the probes produce;
  - the `HostData` class whose `protocols` and `ciphers` fields the server
    stages assign.
- `Methods`: `lib/method.js`.
- `Ciphers`: `lib/cipher.js`.
- `OpenSSLInfo`: `lib/opensslinfo.js`, with the `OpenSSLData` report class.

The network and process calls become inputs, as follows.

- A handshake's end is a `HandshakeSignal`:
  - `Connected`;
  - `SocketError(code, message)`, where `message` is the error's `toString()`;
  - `ConnectThrew(message)`.
- Each method's handshake comes from a function `signals` of the method
  name.
- An `openssl.exec` reply is an `ExecReply(err, output)`, with both fields
  already converted to text.
- The cipher runs come from a function `env` of protocol name and cipher.
- Where a stage's promise rejects, the model's method returns the reason
  and leaves the state unchanged (`rejected: Option<string>`).

Two details of the classification:

- Protocol outcomes for "no ciphers available" and for a thrown "methods
  disabled" carry no unsupported flag. They are only `enabled: false` with
  an explanatory `error` text (`lib/method.js:89-94`, `109-114`).
- A cipher run whose error matches no known pattern is not treated as a
  failure: it falls through to the no-error path (`lib/cipher.js:107-117`),
  and is enabled unless the output reports a handshake failure.

The protocol round takes a `Probe` selector: `AsWritten` runs
`_trySSLMethod` as the program has it, and `Corrected` runs it with the
slip at `lib/method.js:95` fixed (see Findings). Every stage and lemma
downstream of the round is stated for both.

## Model

| member | source | states |
|---|---|---|
| Promises.All | lib/method.js:22-28 | `Q.all` resolves exactly when every promise resolves, with one value per promise in input order; otherwise it rejects with the reason of one that rejected |
| Promises.AllAppend | lib/cipher.js:27 | `Q.all` over two concatenated lists of resolved promises resolves with the two value lists concatenated |
| Promises.FlattenConcat | lib/cipher.js:24-27 | flattening a concatenation of rows of tasks gives the flattened first rows followed by the flattened rest, so pushing a row appends its tasks at the end |
| Text.IndexOfFrom | lib/cipher.js:84 | the search helper behind `indexOf` (the source never passes a start position, so JavaScript's clamping of one is not modelled): -1 when there is no occurrence at or after the start, otherwise the first such occurrence |
| Text.IndexOf | lib/cipher.js:84 | `indexOf` is -1 exactly when the pattern occurs nowhere, and otherwise is the position of its first occurrence |
| Text.IndexOfIsZero | lib/method.js:95 | `indexOf` returns 0 exactly when the text starts with the pattern |
| Text.NotContainsLonger | lib/method.js:88 | a text shorter than a pattern does not contain it |
| Text.LeadingWhiteSpace | lib/opensslinfo.js:31 | counts exactly the white space a text starts with: every counted character is white space, and the next one, if any, is not |
| Text.TrailingWhiteSpace | lib/opensslinfo.js:31 | counts exactly the white space a text ends with: every counted character is white space, and the one before them, if any, is not |
| Text.TrimStart | lib/opensslinfo.js:31 | removes exactly the leading white space: the result is a suffix, everything removed is white space, and the result does not start with white space |
| Text.TrimEnd | lib/opensslinfo.js:31 | removes exactly the trailing white space: the result is a prefix, everything removed is white space, and the result does not end with white space |
| Text.TrimSpec | lib/opensslinfo.js:31 | `trim()` returns a contiguous slice of the input; everything before and after it is white space, and the slice starts and ends with non-white-space |
| Text.TrimIsSlice | lib/opensslinfo.js:31 | the trimmed text is the slice of the input that starts after the leading white space |
| Text.TrimDropsTrailing | lib/opensslinfo.js:31 | everything after that slice is white space |
| Text.TrimIdempotent | lib/opensslinfo.js:31 | trimming twice is trimming once |
| Text.Split | lib/opensslinfo.js:79 | `split` on one character yields at least one piece, and no piece contains the separator |
| Text.JoinSplit | lib/opensslinfo.js:79-80 | joining the pieces of `split` with the same separator gives back the input |
| Text.SplitJoin | lib/opensslinfo.js:79-80 | splitting a join of a non-empty list of separator-free pieces (each possibly empty) gives back those pieces |
| Text.SplitNoSeparator | lib/opensslinfo.js:79 | a text without the separator splits into itself alone |
| Text.SplitPrefix | lib/opensslinfo.js:79 | a separator-free prefix followed by the separator splits off as the first piece |
| Text.Difference | lib/opensslinfo.js:81 | lodash `difference` holds exactly the entries of the first list that are not in the second |
| Text.DifferenceKeepsOrder | lib/opensslinfo.js:81 | the difference keeps the first list's order (it is a subsequence of it) |
| Text.DifferenceNoDuplicates | lib/opensslinfo.js:81 | the difference of a list without repeats has no repeats |
| Reports.HostData.constructor | lib/method.js:15-20 | a host record starts with its host and port and with no protocol or cipher results |
| Methods.MethodTableShape | lib/method.js:40-61 | the table has exactly five methods, SSLv2 to TLSv1.2 in that order, each filed under its own name, none with an openssl flag, with pairwise distinct names |
| Methods.CommonNamesDistinct | lib/method.js:40-61 | no two methods of the table share a common name |
| Methods.LookupInSpec | lib/cipher.js:20 | looking a key up in a table whose keys are its methods' names finds something exactly when some entry has that key, and what it finds is that entry's method, named by the key |
| Methods.LookupByName | lib/cipher.js:20 | `methods()[name]` finds a method exactly when some method has that name, and it finds a table method of that name |
| Methods.WrongVersionTestSlip | lib/method.js:95 | the wrong-version test as written passes for every message except one starting with "true" |
| Methods.TrySSLMethod | lib/method.js:69-120 | a resolved outcome carries the method's name and common name. It is enabled exactly on a completed handshake. Its error text, when present, is the openssl-library or NodeJS message. A reset resolves disabled with no error. "no ciphers available" resolves disabled with the library message. Any other socket error not starting with "true" resolves disabled with no error. A thrown "methods disabled" resolves disabled with the NodeJS message. The probe rejects, with the message, exactly for a non-reset socket error that lacks "no ciphers available" and starts with "true", or for any other thrown error |
| Methods.TrySSLMethodIntended | lib/method.js:69-120 | corrected probe. A resolved outcome carries the method's name and common name, is enabled exactly on a completed handshake, and has only the library or NodeJS message as error text. Reset, "no ciphers available" and a thrown "methods disabled" resolve as in the probe as written. A socket error that names a wrong version number resolves disabled with no error. The probe rejects, with the message, exactly for a non-reset socket error that mentions neither "no ciphers available" nor a wrong version number, or for any other thrown error |
| Methods.WrongVersionSlipWitness | lib/method.js:95-103 | for the socket error "Error: EPIPE" the probe as written resolves SSLv2 as disabled, while the corrected probe rejects |
| Methods.TryProbe | lib/method.js:69-120 | either probe resolves with an outcome naming the method and its common name, enabled exactly on a completed handshake, and rejects with the handshake's message |
| Methods.ProbeProtocols | lib/method.js:19-21 | one probe per table method, in table order, each given its own method's handshake (the map over `_.values(methods)`, also at lib/opensslinfo.js:44-46); stated through Methods.ProtocolResultsInTableOrder |
| Methods.HandshakeFailureProbes | lib/method.js:83-103 | the socket error "Error: handshake failure" resolves as a disabled method with no error as written, and rejects with that message when corrected |
| Methods.HandshakeFailureRound | lib/method.js:19-27 | corrected, a round whose every handshake ends in "Error: handshake failure" rejects with that message |
| Methods.AsWrittenRoundRejects | lib/method.js:19-27 | as written, the round rejects exactly when some method's handshake ends in a non-reset socket error that lacks "no ciphers available" and starts with "true", or in a thrown error that lacks "methods disabled" |
| Methods.SlipEverywhere | lib/method.js:95-100 | as written, when every handshake ends in a socket error not starting with "true", the round resolves and no method is enabled |
| Methods.WrongVersionEverywhere | lib/method.js:95-100 | corrected, when every handshake ends in a socket error naming a wrong version number, the round resolves and no method is enabled |
| Methods.ProtocolResultsInTableOrder | lib/method.js:19-27 | when every probe resolves, there are five results in table order, each naming its method, and each is enabled exactly when its handshake completed; the round rejects exactly when some probe rejects |
| Methods.ProtocolResultsKnown | lib/cipher.js:20 | every protocol in a resolved probe round is a key of the method table |
| Methods.RecordProtocolResults | lib/method.js:22-27 | the continuation of `Q.all` resets the host's protocol list and pushes every result, so the list becomes exactly the results, in order |
| Methods.GetSSLResults | lib/method.js:18-29 | when all probes resolve, `hostData.protocols` becomes exactly their results in order; when one rejects, the record is unchanged and the rejection is returned; no other field changes |
| Ciphers.CipherSuitesSize | lib/cipher.js:131-248 | the cipher catalog has 118 entries |
| Ciphers.TrySSLCipher | lib/cipher.js:79-126 | a cipher probe always resolves, with the probe's protocol and cipher, and is never both enabled and unsupported. The first pattern its error mentions decides: "handshake failure" gives disabled, then "no cipher match" unsupported, then "Cipher is (NONE)" disabled, then "unknown option -" + abbreviation unsupported. With no error, or an error matching none of them, it is enabled exactly when the output lacks "handshake failure" |
| Ciphers.CipherRejectIsIgnored | lib/cipher.js:112-126 | the callback's first call is always a resolve; it also calls reject exactly when the error is recognised, so that reject never takes effect |
| Ciphers.OnlyForAppend | lib/cipher.js:29 | selecting one protocol's outcomes distributes over concatenation |
| Ciphers.FoldProjection | lib/cipher.js:28-47 | after the fold, a protocol has an entry exactly when it had one before or one of its outcomes came along; its entry is the in-order filing of exactly its own outcomes |
| Ciphers.FileAllSorts | lib/cipher.js:37-46 | filing outcomes into a fresh entry puts each cipher on the enabled, disabled or unsupported list its outcome selects (enabled first, then unsupported), in order |
| Ciphers.RowResolves | lib/cipher.js:16-23 | `Q.all` over one protocol's cipher probes resolves with their outcomes in catalog order |
| Ciphers.CipherTasksResolve | lib/cipher.js:13-27 | `Q.all` over the flattened tasks resolves with the outcomes of each enabled protocol's row, row after row |
| Ciphers.RowOnlyFor | lib/cipher.js:16-23 | the outcomes of a protocol's row all carry that protocol |
| Ciphers.OnlyForUniform | lib/cipher.js:29 | outcomes that all carry one protocol are kept whole when selecting that protocol and dropped when selecting any other |
| Ciphers.OutcomesForProtocolStep | lib/cipher.js:14-27 | an enabled result adds exactly its own row to the outcomes for its protocol and nothing to those of any other protocol; a disabled one adds nothing |
| Ciphers.OutcomesForProtocol | lib/cipher.js:14-27 | the outcomes for a protocol are the probes of its catalog row when an enabled result names it, and none otherwise |
| Ciphers.CiphersWithSizes | lib/cipher.js:38-46 | the three lists' sizes sum to the number of outcomes |
| Ciphers.CiphersWithPartition | lib/cipher.js:38-46 | the three lists' multisets add up to the outcomes' ciphers, so each cipher lands on exactly one list |
| Ciphers.FileOneMore | lib/cipher.js:38-46 | three lists that split a cipher list keep splitting it when one cipher is added to it and to one of them |
| Ciphers.CiphersWithKeepsOrder | lib/cipher.js:38-46 | each list keeps the outcomes' order |
| Ciphers.CiphersWithMembers | lib/cipher.js:38-46 | a cipher is on a list exactly when one of its outcomes selects that list |
| Ciphers.CiphersWithUniform | lib/cipher.js:38-46 | when every outcome selects the same list, that list holds every cipher in order and the other two are empty |
| Ciphers.SelectedPartition | lib/cipher.js:16-46 | for one protocol, the three lists split the catalog: sizes sum to the catalog size, multisets add up to the catalog's, each list keeps catalog order, and a cipher is on a list exactly when it is in the catalog and its probe selects that list |
| Ciphers.MatrixKeys | lib/cipher.js:14-36 | the matrix has an entry for a protocol exactly when an enabled protocol result names it; a disabled protocol gets no key |
| Ciphers.MatrixEntry | lib/cipher.js:12-47 | an enabled protocol's entry holds the catalog ciphers its probes found enabled, disabled and unsupported, each in catalog order |
| Ciphers.GetCipherResults | lib/cipher.js:12-50 | `hostData.ciphers` is replaced by the fold of every enabled protocol's catalog probes; no other field changes |
| Ciphers.RecordCipherResults | lib/cipher.js:27-48 | the continuation of `Q.all` starts a fresh map and files each outcome in order, creating the protocol's entry on first sight; the result is the fold of the outcomes |
| Ciphers.ProtocolResultsWellFormed | lib/cipher.js:14-20 | the results of a resolved probe round give the cipher stage what it needs: every enabled protocol is a table key and none is repeated |
| Ciphers.RowAllEnabled | lib/cipher.js:112-117 | when every run for a protocol succeeds without a handshake failure, its enabled list is the catalog and the other two are empty |
| Ciphers.EverythingAccepted | lib/cipher.js:12-50 | a server that completes every handshake and accepts every cipher has all five methods enabled, each with the whole catalog as enabled |
| Ciphers.EverythingRefused | lib/cipher.js:12-50 | when every handshake ends in a socket error that the chosen probe reads as a disabled method (not starting with "true" as written; naming a wrong version number when corrected), every method is disabled and the cipher matrix is empty |
| Ciphers.HandshakeFailureEverywhere | lib/cipher.js:12-50 | a host that fails every handshake with "Error: handshake failure" has, as written, every method disabled and an empty cipher matrix; corrected, the protocol round rejects with that error |
| Ciphers.NoneEnabledNoOutcomes | lib/cipher.js:14-23 | protocol results none of which is enabled start no cipher probe |
| OpenSSLInfo.OpenSSLData.constructor | lib/opensslinfo.js:31 | a report starts with its version, which never changes afterwards, and with no protocol or cipher split |
| OpenSSLInfo.GetOpenSSLVersion | lib/opensslinfo.js:25-35 | an exec error rejects with that error; otherwise a new report holds the trimmed output as its version |
| OpenSSLInfo.PartitionNamesSplits | lib/opensslinfo.js:48-58 | every result's name goes into exactly one of supported and unsupported: sizes and multisets add up to the results' |
| OpenSSLInfo.PartitionNamesKeepsOrder | lib/opensslinfo.js:52-58 | each of the two lists keeps result order |
| OpenSSLInfo.PartitionNamesMembers | lib/opensslinfo.js:52-58 | a name is supported exactly when an enabled result carries it, and unsupported exactly when a disabled result does |
| OpenSSLInfo.SupportedWhenEnabled | lib/opensslinfo.js:52-58 | when no two results share a name, a result's name is supported exactly when that result is enabled |
| OpenSSLInfo.RecordProtocols | lib/opensslinfo.js:47-59 | the continuation of `Q.all` gives the report a fresh split and pushes each result's name onto the supported or unsupported list by its `enabled` flag; the split is `PartitionNames` of the results |
| OpenSSLInfo.GetOpenSSLProtocols | lib/opensslinfo.js:43-61 | when all probes resolve, `protocols` becomes the split of their names filled result by result; when one rejects, the report is unchanged and the rejection is returned |
| OpenSSLInfo.LocalProtocolsCoverTable | lib/opensslinfo.js:44-58 | the local protocol split names five methods in all, and a method is supported exactly when its handshake with the reference host completed |
| OpenSSLInfo.CipherCatalog | lib/opensslinfo.js:79-81 | for a given catalog: joining `supported` with ':' gives back the trimmed output, and no supported name contains ':'. `unsupported` holds exactly the catalog ciphers not in `supported`, so no name is in both, in catalog order |
| OpenSSLInfo.GetOpenSSLCiphers | lib/opensslinfo.js:69-86 | an exec error rejects and leaves the report unchanged; otherwise `ciphers` becomes the cipher split of the output against the catalog; the protocol split is untouched |
| OpenSSLInfo.CapabilitiesFor | lib/opensslinfo.js:13-17 | for a given catalog, version, then protocols, then ciphers: the first stage that fails decides the rejection and no report is delivered; otherwise a new report holds the trimmed version, the protocol split and the cipher split |
| OpenSSLInfo.GetOpenSSLCapabilities | lib/opensslinfo.js:13-17 | the same, with the cipher catalog of `lib/cipher.js` as the catalog |

## Left out

- Sockets, `tls.connect`, `setEncoding`/`end` and `openssl.exec`:
  - these are network and process I/O, so each becomes an input;
  - how the `s_client` command line is assembled from `commandParams` is the
    wrapper library's work and is not modelled;
  - the environment is keyed by protocol name and cipher.
- Only the first event of a handshake is modelled. A socket that reports an
  error after the connect callback ran would settle an already-settled
  deferred, which changes nothing.
- Concurrency and timing of the fan-out are not modelled:
  - probes are modelled as already settled, and `Q.all` as a function over
    them in list order;
  - when several probes reject, `Promises.All` picks the first in list order,
    whereas `Q.all` takes the first in time; the contracts say only that the
    reason is one of the rejections.
- `Ciphers.GetCipherResults` requires every enabled protocol result to name a
  table key:
  - for a key that is not in the table, the source reads a field of
    `undefined` and throws;
  - `Ciphers.ProtocolResultsWellFormed` shows that this precondition always
    holds after the protocol stage.
- The abbreviation is never set, because the method table has no
  `opensslAbbrev` field (`lib/method.js:40-61`, although `lib/cipher.js:71`
  and `98` read it):
  - the model keeps the field as an absent-able `Option`, and every table
    entry has none;
  - the unknown-option test therefore searches for "unknown option
    -undefined", as the concatenation does.
- `OpenSSLInfo.CipherCatalog`: the no-repeats property of `unsupported` is
  proved only as `Text.DifferenceNoDuplicates`, which is conditional on the
  catalog having no repeated entry. That the 118 literal catalog entries are
  pairwise distinct is not proved, because comparing every pair is too costly
  for the verifier.
- Strings are sequences of Unicode scalar values, not UTF-16 code units. This
  makes no difference for the ASCII texts involved.
- `lib/certificate.js` is not part of this model. It converts DER to PEM
  through the openssl binary and parses with a foreign X.509 parser.
- `index.js` and `lib/sslinfo.js` are not part of this model; they only wire
  the three stages together.
- `badCipherSuites` (`lib/cipher.js:250-296`) is static advisory data. It is
  never used in classification.
- The reference host `www.google.com:443` (`lib/opensslinfo.js:45`) is part of
  the environment. Its handshake results come from `signals`.

## Findings

| source | as written | input that shows it | evidently intended | confidence | as-written member | corrected member |
|---|---|---|---|---|---|---|
| lib/method.js:95 | `msg.indexOf("SSL3_GET_RECORD:wrong version number" !== -1)`: the comparison is inside the call, so the test searches for "true" and passes unless the message starts with it; nearly every unrecognised socket error resolves as a disabled method | a socket error with message "Error: EPIPE" and no code | `msg.indexOf("SSL3_GET_RECORD:wrong version number") !== -1`, so that unrecognised errors reach the reject at line 102 | high (not executed) | Methods.TrySSLMethod, Methods.WrongVersionSlipWitness | Methods.TrySSLMethodIntended |

`Methods.TrySSLMethod` models the probe as written, and
`Methods.WrongVersionSlipWitness` exhibits the input on which it differs from
the corrected probe. The protocol round and every stage after it take the
probe as a parameter (`Methods.Probe`). With `AsWritten` they describe the
program as it runs: `Methods.AsWrittenRoundRejects` says exactly when the
round rejects, and `Ciphers.HandshakeFailureEverywhere` shows a host that fails
every handshake getting all methods disabled and an empty matrix. With
`Corrected` they describe the evidently intended program, in which the same
host makes the round reject.
