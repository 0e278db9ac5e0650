# Verification of nigiri-rs

A Dafny model of the parts of nigiri-rs in which a mistake would go unnoticed longest: the redaction of
diagnostics, the state machines that turn a stream of events with an uncertain end into one verdict, the
bootstrap of a Lightning channel, the peg between two chains, and a few small algebraic cores. Everything is
stated for all inputs, all traces or all runs; nothing is sampled.

`dafny verify dfyconfig.toml` checks the whole project.

## How the model is built

- **Text.** A Rust string is its UTF-8 bytes, one Dafny `char` per byte. `Utf8` holds well-formedness
  (sections 3 and 4 of RFC 3629) as a byte automaton; passes that rewrite text are shown to keep it.
- **Redaction** (`Search`, `Anchored*`, `MaskedForms`, `PrivateKeys`, `PrivateKeyCoverage`, `PrivateKeyForms`,
  `Scripts`, `Redactor`, `KeptText`, `Markers`, `Exposure`, `ExposureCounterexamples`, `CleanOutput`, `RedactTwice`,
  `RedactCounterexamples`, `Echo`, `EchoForms`). What counts as a keyed secret is written out as a grammar in
  `AnchoredGrammar`, from its own list of names; the `*Forms` modules say what comes out for texts written in a given
  form. Each pass is a method with the loops and cursors of the source, proved equal to a recursive specification; the
  results are about the specification. `Scripts` describes a pass by what it keeps and what it masks, which is where
  byte positions before and after a pass are related. A secret is the value of a key that is structured anywhere in
  what the private-key pass has written, whether the anchored pass comes to that key or not, unless the value is empty
  or a mere marker of this crate. A text is called clean when at every place of it a structured key has an empty value
  or one that opens with a marker: a pass over it would find nothing more.
- **Streams** (`Rpc`, `PaymentStream`, `PaymentWire`, `ChannelOpen`). A trace is any finite sequence of updates
  and what stops it. The verdict is defined by the shape of the trace; the loop is proved to compute it, and
  `PaymentWire` says what it means in the fields of the messages. Status codes are known by their gRPC numbers.
- **Runs** (`Fixture`, `Wallet`, `FundingRace`, `ReverseReadiness`, `PegIn`). What the surroundings do - answers,
  failures, the deadline, which of two futures is ready first - is an arbitrary parameter of a run, and the run
  records what the program sends. Where a script of answers is used up, the deadline has passed.
- **Peg-outs, endpoints, ledger, arguments, amounts** (`PegOutScript`, `PegOut`, `Endpoint`, `EndpointGrammar`,
  `Ledger`, `NodeArgs`, `Amounts`), with `Hex` and `Decimal` below them.

SHA-256, the standard-address test, the amount parser and the IPv6 text form are parameters; of the last it is
supposed that a printed address is accepted again as the same, that it consists of hexadecimal digits, colons
and dots, and that every accepted text has a colon. Fixed error texts of the adapter are named constants, one
per text; the reason of a failed payment is real text, because the program compares it.

## Where the code does not do what it is said to do

- **A secret can be left** in two ways. A value that opens with a marker is copied with whatever stands behind
  the marker, and the marker of a private-key block counts, too (`ExposureCounterexamples.SeedBehindMarker`,
  `SeedBehindBlock`). And masking a token can take the key of another secret with it, which then stays as it is:
  `rpcpass=mnemonic: able` comes out as `rpcpass=[REDACTED] able` (`SeedBehindToken`, `KeyInsideToken`).
  `Exposure.HidesSecretsIff` says exactly when no byte of any secret is left: when every marked value that the
  anchored pass comes to is a mere marker, and no key inside a token that it masks has a secret that ends behind
  the token, unless that one begins behind it and is nothing but credentials, which the patterns replace.
  `Exposure.GuardedHides` is a guard that looks for key names only, in marked values and in tokens.
  `Exposure.TailHidesSecrets` and `HeadHidesSecrets` are the same for what callers receive.
- **A private-key block can be left** when it begins inside the end marker of the block before, so that the two
  share their dashes (`PrivateKeyCoverage.SharedDashesLeak`). `PrivateKeyCoverage.WhollyMaskedIff` says exactly
  when every byte of a block is masked: when each masked block that ends inside it is followed at once by another
  one. A block in which no other masked block ends is always masked from its first dash to its last.
- **The anchored pass is not idempotent** (the comment at `crates/nigiri-rs-fixtures/src/diagnostics.rs:186-187`
  says it must be). When a marked value was taken for a value only because of a hyphen earlier in its line, and
  that hyphen sits in a value which the same pass masks, a second pass no longer sees the value and reads on
  behind its marker. `AnchoredTightness.NotIdempotent` gives a text. `AnchoredExact.IdempotentIff` says exactly
  when the pass is idempotent: when, behind the first such orphan with a key inside its value, it comes to
  nothing more to mask. `AnchoredExact.NoLooseSettles` is a guard on the input alone: every marked value keeps
  its key or holds none. The narrower guard `OrphanFree` is sufficient, and tight up to an insertion.
- **`redact` as a whole is not idempotent**, for that reason (`RedactCounterexamples.OrphanFails`), because a
  credential inside a marked value is replaced by a marker that ends the value early
  (`RedactCounterexamples.PatternFails`, where there is no orphan), and because masking a block puts the words
  `PRIVATE KEY` into the label of an open header around it (`RedactCounterexamples.NestedFails`).
  `RedactTwice.RedactsOnceIff` says exactly when it is idempotent: when each of the first two passes, on its own,
  leaves the output alone. The guard on the input is `RedactTwice.SettledRedactsOnce`;
  `RedactTwice.TailRedactsOnce` is the same for what callers render again, and `RedactTwice.BlockRedactsOnce` for
  texts with a block in them.
- The running total in the seed validation and two overflow guards of the conversions can never refuse anything
  (`Wallet.ValidateCipherSeed`, `Amounts.ConvertIff`); the check of a readiness payment repeats what the stream
  has established (`ReverseReadiness.PaidIsVerified`).

## Model

| member | source | states |
|---|---|---|
| Utf8.BoundaryIffBetweenCharacters | crates/nigiri-rs-fixtures/src/diagnostics.rs:324-327 | The byte test for a character boundary holds exactly between two characters |
| AnchoredPass.RedactAnchoredValues | crates/nigiri-rs-fixtures/src/diagnostics.rs:96-198 | The cursor loop computes the specification of the anchored pass |
| AnchoredPass.FindSecret | crates/nigiri-rs-fixtures/src/diagnostics.rs:102-178 | Finds at a place exactly the structured secret that the specification finds there |
| AnchoredPass.FindValueStart | crates/nigiri-rs-fixtures/src/diagnostics.rs:114-161 | From an anchor to the first byte of its value, in assignment and in space form |
| AnchoredPass.FindValueEnd | crates/nigiri-rs-fixtures/src/diagnostics.rs:162-178 | A token value ends at the first terminator, a seed value at the end of its line |
| AnchoredPass.PushNextCharacter | crates/nigiri-rs-fixtures/src/diagnostics.rs:200-207 | Copies one whole character and stays on a boundary |
| AnchoredPass.SpaceFormMeaning | crates/nigiri-rs-fixtures/src/diagnostics.rs:209-221 | The line-and-token test equals the running hyphen flag and digit test of the specification |
| AnchoredGrammar.SecretIff | crates/nigiri-rs-fixtures/src/diagnostics.rs:39-64 | At any place of a text the pass finds a secret if and only if one of the listed names stands there, in either case, followed by one of the written-out forms; the value is what the form says |
| AnchoredGrammar.FormIff | crates/nigiri-rs-fixtures/src/diagnostics.rs:109-178 | The parts of a form - suffix, quote, blanks, delimiter or space form, padding, quote, value - are those that the pass skips, in no other way |
| AnchoredGrammar.NameIsKey | crates/nigiri-rs-fixtures/src/diagnostics.rs:43-64 | A listed name that is followed by a form is the key that the pass reads, not a shorter or a longer one |
| AnchoredGrammar.HyphenIff | crates/nigiri-rs-fixtures/src/diagnostics.rs:209-213 | The running flag says that the line holds a hyphen before the place |
| MaskedForms.FormIsMasked | crates/nigiri-rs-fixtures/src/diagnostics.rs:150-193 | A text that opens with a form comes out with the value of the form masked, unless that is empty or marked, and the rest redacted on its own |
| MaskedForms.MaskedBehind | crates/nigiri-rs-fixtures/src/diagnostics.rs:96-198 | For every way to write a key and its value, behind any text without names: the same text with the value masked |
| MaskedForms.QuotedIsMasked | crates/nigiri-rs-fixtures/src/diagnostics.rs:72-77 | `name="v"`: the value between the quotes is masked, for every token name |
| MaskedForms.JsonIsMasked | crates/nigiri-rs-fixtures/src/diagnostics.rs:119-160 | `"name": "v"`: the same behind any text without names |
| MaskedForms.SuffixedIsMasked | crates/nigiri-rs-fixtures/src/diagnostics.rs:111-118 | `name_hex=v`, `name-hex=v`, `name.hex=v`: the same |
| MaskedForms.OptionIsMasked | crates/nigiri-rs-fixtures/src/diagnostics.rs:209-221 | `--name v`: the same |
| MaskedForms.LineIsMasked | crates/nigiri-rs-fixtures/src/diagnostics.rs:162-178 | `name: v` for the names of seeds: the value to the end of the line is masked |
| MaskedForms.NamelessIsKept | crates/nigiri-rs-fixtures/src/diagnostics.rs:96-107 | A text in which no listed name stands is left alone |
| AnchoredPass.ScanKeepsUtf8 | crates/nigiri-rs-fixtures/src/diagnostics.rs:96-198 | The pass keeps text well-formed |
| AnchoredPass.ScanScriptIsPass | crates/nigiri-rs-fixtures/src/diagnostics.rs:96-198 | The pass keeps or masks each piece in order, and a mask is never shorter than what it hides |
| AnchoredKeys.ParseTransfers | crates/nigiri-rs-fixtures/src/diagnostics.rs:102-161 | A secret found before the first rewritten byte of the output was found in the input at the same place |
| AnchoredKeys.KeyInterior | crates/nigiri-rs-fixtures/src/diagnostics.rs:43-64 | A key read from inside another key leads to the same value |
| AnchoredRuns.ParseShift | crates/nigiri-rs-fixtures/src/diagnostics.rs:102-178 | What is found at a place depends on the text from there on and on the hyphen of the line |
| AnchoredRuns.ColdRun | crates/nigiri-rs-fixtures/src/diagnostics.rs:184-192 | A stretch in which every value is empty or marked is copied byte by byte |
| AnchoredIdempotence.Settles | crates/nigiri-rs-fixtures/src/diagnostics.rs:186-192 | Without orphans a second pass, started with any weaker hyphen flag, changes nothing |
| AnchoredTightness.OrphanFreeSettles | crates/nigiri-rs-fixtures/src/diagnostics.rs:186-192 | On every orphan-free text the anchored pass is idempotent |
| AnchoredTightness.OrphanFreeIff | crates/nigiri-rs-fixtures/src/diagnostics.rs:186-192 | A text is orphan-free if and only if the pass is idempotent on all its variants with something inserted behind its first orphan's marker; an orphaned text itself can be idempotent |
| AnchoredTightness.PlantedFails | crates/nigiri-rs-fixtures/src/diagnostics.rs:186-192 | Behind any orphan an insertion exists on which the pass is not idempotent |
| AnchoredTightness.NotIdempotent | crates/nigiri-rs-fixtures/src/diagnostics.rs:186-192 | A text that the second pass changes |
| AnchoredExact.RestsIff | crates/nigiri-rs-fixtures/src/diagnostics.rs:186-192 | For any key table and any weaker flag, the second pass leaves the output alone if and only if it rests behind the first loose orphan |
| AnchoredExact.IdempotentIff | crates/nigiri-rs-fixtures/src/diagnostics.rs:186-192 | The anchored pass is idempotent on a text if and only if, behind the first orphan whose value holds a key, nothing more is masked |
| AnchoredExact.NoLooseSettles | crates/nigiri-rs-fixtures/src/diagnostics.rs:186-192 | It is idempotent on every text whose marked values keep their keys or hold none |
| AnchoredExact.OrphanFreeHasNoLoose | crates/nigiri-rs-fixtures/src/diagnostics.rs:186-192 | That guard covers the orphan-free texts |
| AnchoredExact.KeylessHasNoLoose | crates/nigiri-rs-fixtures/src/diagnostics.rs:186-192 | It covers the texts in whose marked values no key name occurs |
| AnchoredExact.HarmlessOrphan | crates/nigiri-rs-fixtures/src/diagnostics.rs:186-192 | A text with an orphan on which the pass is idempotent |
| AnchoredKeys.ParseBack | crates/nigiri-rs-fixtures/src/diagnostics.rs:102-161 | A secret found before a place where a marker goes in is still found there |
| AnchoredClean.ScanCleanIff | crates/nigiri-rs-fixtures/src/diagnostics.rs:96-198 | The pass writes a clean text if and only if it copies no marked value with an unmarked one inside |
| AnchoredClean.KeylessIsNotHot | crates/nigiri-rs-fixtures/src/diagnostics.rs:188-192 | A marked value in which no key name occurs hides none |
| AnchoredClean.ApartIsKeyless | crates/nigiri-rs-fixtures/src/diagnostics.rs:188-192 | A text in which no marker stands right behind a separator has no marked value |
| AnchoredClean.ReplaceCleanIff | crates/nigiri-rs-fixtures/src/diagnostics.rs:84-86 | Replacing a pattern by a marker gives a clean text if and only if the only unmarked values were those that open with it |
| AnchoredClean.CleanSuffix | crates/nigiri-rs-fixtures/src/diagnostics.rs:302-304 | What is cut off the front of a clean text leaves a clean one |
| AnchoredClean.CleanIsFixed | crates/nigiri-rs-fixtures/src/diagnostics.rs:96-198 | A clean text is left alone by the pass |
| PrivateKeys.RedactPrivateKeyBlocks | crates/nigiri-rs-fixtures/src/diagnostics.rs:223-251 | The block loop computes the specification of the private-key pass |
| PrivateKeys.PushRedaction | crates/nigiri-rs-fixtures/src/diagnostics.rs:262-267 | Appends the marker, padded with stars to the length it replaces |
| PrivateKeys.FindBlockEnd | crates/nigiri-rs-fixtures/src/diagnostics.rs:242-244 | A block runs to the end of its own end marker, or of the text |
| PrivateKeyForms.BlockIsMasked | crates/nigiri-rs-fixtures/src/diagnostics.rs:223-251 | A block of any label that says private key, its lines in either case, is masked from its first dash to the last of its own end line; what is around stays |
| PrivateKeyForms.OpenBlockIsMasked | crates/nigiri-rs-fixtures/src/diagnostics.rs:242-244 | Without that end line it is masked to the end of the text |
| PrivateKeyForms.PublicBlockIsKept | crates/nigiri-rs-fixtures/src/diagnostics.rs:234-238 | A block with another label is left alone |
| PrivateKeys.BlockLength | crates/nigiri-rs-fixtures/src/diagnostics.rs:223-247 | A block is at least as long as the marker that replaces it |
| PrivateKeys.MasksInPlace | crates/nigiri-rs-fixtures/src/diagnostics.rs:223-251 | The pass keeps the length, and every byte outside a masked block keeps its index |
| PrivateKeys.BlocksOrdered | crates/nigiri-rs-fixtures/src/diagnostics.rs:228-247 | The masked blocks are in order and apart |
| PrivateKeyCoverage.EveryBlockMet | crates/nigiri-rs-fixtures/src/diagnostics.rs:228-247 | Every private-key block ahead of the cursor is masked as a whole or begins inside another masked one |
| PrivateKeyCoverage.WhollyMaskedIff | crates/nigiri-rs-fixtures/src/diagnostics.rs:228-247 | All its bytes are masked if and only if every other masked block that ends inside it is followed at once by a masked one |
| PrivateKeyCoverage.ApartIsMasked | crates/nigiri-rs-fixtures/src/diagnostics.rs:228-247 | A block that begins inside no other one is masked from the first byte of its header to the last of its end marker |
| PrivateKeyCoverage.OneBlockOnly | crates/nigiri-rs-fixtures/src/diagnostics.rs:223-251 | What a text with one block becomes, byte for byte |
| PrivateKeyCoverage.SharedDashesLeak | crates/nigiri-rs-fixtures/src/diagnostics.rs:228-247 | Two blocks that share their dashes: the body of the second is copied |
| PrivateKeyCoverage.NestedBlockTwice | crates/nigiri-rs-fixtures/src/diagnostics.rs:223-251 | The pass is not idempotent on a block inside the label of an open header |
| PrivateKeys.PemScriptIsPass | crates/nigiri-rs-fixtures/src/diagnostics.rs:223-251 | The pass as kept and masked pieces, none of which shrinks |
| PrivateKeys.KeepsUtf8 | crates/nigiri-rs-fixtures/src/diagnostics.rs:223-251 | The pass keeps text well-formed |
| Scripts.Slack | crates/nigiri-rs-fixtures/src/diagnostics.rs:77-79 | From any copied byte on, the output of a growing pass is at least as long as the input |
| Scripts.SlackThrough | crates/nigiri-rs-fixtures/src/diagnostics.rs:77-79 | The same through any number of passes in a row |
| Scripts.KeepsAbsentCi | crates/nigiri-rs-fixtures/src/diagnostics.rs:80-89 | Markers that bar a needle let no occurrence of it appear |
| Redactor.RedactDiagnostics | crates/nigiri-rs-fixtures/src/diagnostics.rs:80-89 | The passes in sequence compute the specification of `redact` |
| Redactor.ScriptsAreRedact | crates/nigiri-rs-fixtures/src/diagnostics.rs:80-89 | `redact` is three passes of kept and masked pieces, each growing |
| Redactor.RedactNeverShrinks | crates/nigiri-rs-fixtures/src/diagnostics.rs:78-79 | The output is never shorter than the input |
| Redactor.TailDropsContext | crates/nigiri-rs-fixtures/src/diagnostics.rs:302-304 | Every copied byte of the kept tail comes from behind the context bytes of a full window |
| Redactor.TailIsRendered | crates/nigiri-rs-fixtures/src/diagnostics.rs:302-304 | The tail is within its bound, well-formed, and free of the user, the pair and the basic-auth spelling |
| Redactor.HeadIsRendered | crates/nigiri-rs-fixtures/src/diagnostics.rs:307-309 | The same of the head, for every bound, cut marker included |
| Redactor.JoinIsRendered | crates/nigiri-rs-fixtures/src/diagnostics.rs:311-317 | The same of joined diagnostics |
| Redactor.TailIsLongest | crates/nigiri-rs-fixtures/src/diagnostics.rs:319-329 | No longer well-formed suffix fits the bound |
| Redactor.KeepTail | crates/nigiri-rs-fixtures/src/diagnostics.rs:319-329 | The tail loop stops at the first character boundary |
| Redactor.KeepHead | crates/nigiri-rs-fixtures/src/diagnostics.rs:331-348 | The head loop stops at the last character boundary and adds the cut marker when it fits |
| KeptText.HeadIs | crates/nigiri-rs-fixtures/src/diagnostics.rs:306-348 | A redacted text within the bound is returned unchanged; of a longer one the longest well-formed front that leaves room for the cut marker, and the marker, which there is if the bound is above eleven bytes |
| KeptText.TailIs | crates/nigiri-rs-fixtures/src/diagnostics.rs:301-329 | The same of the tail and its 16384 bytes |
| KeptText.JoinIs | crates/nigiri-rs-fixtures/src/diagnostics.rs:311-317 | Joined diagnostics are both texts with a semicolon between, redacted together and cut as a tail |
| KeptText.JoinKeepsBoth | crates/nigiri-rs-fixtures/src/diagnostics.rs:311-317 | They are as long as both texts together or fill the bound but for less than a character |
| KeptText.PlainJoin | crates/nigiri-rs-fixtures/src/diagnostics.rs:311-317 | Texts that hold nothing to redact, and fit, are both kept whole |
| KeptText.PlainIsKept | crates/nigiri-rs-fixtures/src/diagnostics.rs:80-89 | A text without a listed name, credential or block header is left alone by `redact` |
| KeptText.CredentialsAre | crates/nigiri-rs-fixtures/src/diagnostics.rs:84-86 | Each credential becomes its own marker, the user with the password before the user alone |
| AnchoredCover.VisitWrites | crates/nigiri-rs-fixtures/src/diagnostics.rs:96-198 | From every place that the cursor comes to, the rest of the text is redacted by itself |
| AnchoredCover.MasksAllIff | crates/nigiri-rs-fixtures/src/diagnostics.rs:91-95 | The anchored pass masks every byte of every secret, wherever its key is, if and only if what it finds covers the places up to its end |
| Redactor.OnePassIsPatterns | crates/nigiri-rs-fixtures/src/diagnostics.rs:84-86 | The three replacements in a row do what one pass does that looks for all three credentials, the longest first |
| Exposure.SpelledIff | crates/nigiri-rs-fixtures/src/diagnostics.rs:67-89 | From a place that the pass comes to, a stretch is hidden as a whole if and only if it is nothing but credentials |
| Exposure.HidesSecretsIff | crates/nigiri-rs-fixtures/src/diagnostics.rs:67-89 | No byte of any secret is copied into the output of `redact` if and only if every marked value is a mere marker and no key inside a masked token has a secret behind the token, but for credentials |
| Exposure.GuardedHides | crates/nigiri-rs-fixtures/src/diagnostics.rs:67-89 | This holds when every marked value is a mere marker and no key name occurs inside a token |
| Exposure.ApartIsAlone | crates/nigiri-rs-fixtures/src/diagnostics.rs:188-192 | No value is marked in a text in which no marker stands right behind a separator |
| Exposure.ServiceTextHides | crates/nigiri-rs-fixtures/src/diagnostics.rs:67-89 | Text without marker and without block header leaves no secret if no key name occurs inside its tokens |
| Exposure.BlockTextHides | crates/nigiri-rs-fixtures/src/diagnostics.rs:67-89 | Neither does such text with a block in it, if the block's marker cannot be taken for a value |
| Exposure.TailHidesSecrets | crates/nigiri-rs-fixtures/src/diagnostics.rs:302-304 | No byte of the tail that a caller receives was copied from a secret, wherever it was cut |
| Exposure.HeadHidesSecrets | crates/nigiri-rs-fixtures/src/diagnostics.rs:307-309 | Nor was one of the head, for every bound; behind the copied bytes there is only the cut marker |
| ExposureCounterexamples.BehindMarker | crates/nigiri-rs-fixtures/src/diagnostics.rs:188-192 | Whatever stands behind the marker of a line is left as it is |
| ExposureCounterexamples.SeedBehindMarker | crates/nigiri-rs-fixtures/src/diagnostics.rs:188-192 | A marked text whose seed words `redact` leaves in clear |
| ExposureCounterexamples.SeedBehindBlock | crates/nigiri-rs-fixtures/src/diagnostics.rs:188-192 | Texts, one for each block body, whose seed words are left behind the block's marker |
| ExposureCounterexamples.KeyInsideToken | crates/nigiri-rs-fixtures/src/diagnostics.rs:162-170 | Words whose key is inside a masked token are found by the key table and left by `redact` |
| ExposureCounterexamples.SeedBehindToken | crates/nigiri-rs-fixtures/src/diagnostics.rs:162-170 | A text without marker and header whose seed words are left in clear, with its whole output |
| CleanOutput.PatternsCleanIff | crates/nigiri-rs-fixtures/src/diagnostics.rs:84-86 | The three replacements leave a clean text if and only if the values that open with a credential were the only unmarked ones |
| CleanOutput.IsCleanIff | crates/nigiri-rs-fixtures/src/diagnostics.rs:67-89 | The output of `redact` is clean if and only if no marked value behind the private-key pass has an unmarked one inside |
| CleanOutput.KeylessIsClean | crates/nigiri-rs-fixtures/src/diagnostics.rs:188-192 | It is clean for every text, blocks and markers included, in whose marked values no key name occurs |
| CleanOutput.WrittenByService | crates/nigiri-rs-fixtures/src/diagnostics.rs:188-192 | A text without marker and without block header is such a text |
| CleanOutput.BlockPasses | crates/nigiri-rs-fixtures/src/diagnostics.rs:188-192 | So is a text with a block in it, if the block's marker cannot be taken for a value |
| CleanOutput.TailIsClean | crates/nigiri-rs-fixtures/src/diagnostics.rs:302-304 | The tail that a caller receives is clean whenever the whole is |
| CleanOutput.BlockHidesKey | crates/nigiri-rs-fixtures/src/diagnostics.rs:188-192 | Texts without a marker whose output is not clean: a password is left behind a masked block |
| RedactTwice.SettlesIff | crates/nigiri-rs-fixtures/src/diagnostics.rs:80-89 | `redact` leaves a text without credentials alone if and only if each of its first two passes does |
| RedactTwice.RedactsOnceIff | crates/nigiri-rs-fixtures/src/diagnostics.rs:80-89 | `redact` is idempotent on a text if and only if each of these passes leaves its output alone |
| RedactTwice.PemLeavesIff | crates/nigiri-rs-fixtures/src/diagnostics.rs:223-251 | The private-key pass leaves a text alone if and only if it has no private-key block |
| RedactTwice.OnceIffNoBlock | crates/nigiri-rs-fixtures/src/diagnostics.rs:80-89 | When the output is clean, `redact` is idempotent if and only if the output has no private-key block |
| RedactTwice.SettledRedactsOnce | crates/nigiri-rs-fixtures/src/diagnostics.rs:80-89 | `redact` is idempotent on every text whose marked values have no unmarked one inside and in which no header is left by the private-key pass |
| RedactTwice.BlockRedactsOnce | crates/nigiri-rs-fixtures/src/diagnostics.rs:80-89 | On text with a block whose marker cannot be taken for a value the output is clean and `redact` is idempotent |
| RedactTwice.TailRedactsOnce | crates/nigiri-rs-fixtures/src/diagnostics.rs:302-304 | A tail kept from such a text is not changed when it is rendered again |
| RedactCounterexamples.OrphanFails | crates/nigiri-rs-fixtures/src/diagnostics.rs:80-89 | A text on which `redact` is not idempotent: a hyphen goes that structured a key |
| RedactCounterexamples.PatternFails | crates/nigiri-rs-fixtures/src/diagnostics.rs:80-89 | Another one, without any orphan: a credential inside a marked value |
| RedactCounterexamples.NestedFails | crates/nigiri-rs-fixtures/src/diagnostics.rs:80-89 | And others, one for each block body: a block inside the label of an open header |
| Echo.FindAnchorOf | crates/nigiri-rs-core/src/http.rs:134-144 | The anchor loop stops at the last character boundary within twelve bytes |
| Echo.RedactOneValue | crates/nigiri-rs-core/src/http.rs:109-131 | The loop computes the specification, and ends: every echo is at least as long as a nonempty anchor |
| Echo.EchoScriptIsRedact | crates/nigiri-rs-core/src/http.rs:109-131 | The output is the input with disjoint prefixes of the value masked, each at least the anchor and not extendable |
| Echo.AnchorLeftIff | crates/nigiri-rs-core/src/http.rs:109-131 | An anchor that no end of the marker can help to spell is left in the output if and only if it was in the input and the marker itself spells it |
| Echo.OverlapIsLeft | crates/nigiri-rs-core/src/http.rs:109-131 | An anchor that opens with the marker's closing bracket can be spelled again by the marker and what follows |
| Echo.NoAnchorLeft | crates/nigiri-rs-core/src/http.rs:102-107 | After all values no anchor that the markers cannot spell is left, whatever the other values are |
| EchoForms.AnchorIs | crates/nigiri-rs-core/src/http.rs:134-144 | An echo is recognised by the whole value or by the longest well-formed front of at most twelve bytes |
| EchoForms.EchoIsMasked | crates/nigiri-rs-core/src/http.rs:109-131 | The front of a value, as far as the text repeats it, becomes the marker; what is before stays, and what follows is redacted on its own |
| Echo.ReadBody | crates/nigiri-rs-core/src/http.rs:62-78 | The body is the first `limit` bytes of all chunks joined, and `exceeded` says that there were more: how they were cut does not matter |
| Hex.EncodeLowercaseHex | crates/nigiri-rs-lnd/src/transport.rs:466-474 | The loop prints bytes in lower case |
| Hex.ParsePreimage | crates/nigiri-rs-lnd/src/convert.rs:302-314 | The loop that fills 32 bytes in place computes the specification |
| Hex.ParseHexIff | crates/nigiri-rs-lnd/src/convert.rs:302-323 | A text is accepted if and only if its lower-case form is the printed form of 32 bytes, and the result is these |
| Hex.ParsedIff | crates/nigiri-rs-lnd/src/convert.rs:302-323 | A text is accepted if and only if it has 64 hexadecimal digits of either case |
| Hex.PrintedDigits | crates/nigiri-rs-lnd/src/transport.rs:466-474 | Each byte is printed as two digits, the high one first |
| Hex.HexRoundTrip | crates/nigiri-rs-lnd/src/convert.rs:302-323 | Printing and parsing gives the bytes back, in either letter case |
| Hex.HexInjective | crates/nigiri-rs-lnd/src/transport.rs:466-474 | Different bytes print differently |
| Rpc.HasTransportSource | crates/nigiri-rs-lnd/src/transport.rs:330-339 | Finds a transport error anywhere in the chain of sources |
| Rpc.AmbiguousIff | crates/nigiri-rs-lnd/src/transport.rs:310-328 | LND may have acted if and only if the connection failed or the code is 1, 2, 4, 8, 13 or 14 |
| Rpc.UnansweredIs | crates/nigiri-rs-lnd/src/transport.rs:224-263 | What a call reports that is not answered, by the number of the code, for plain calls and for those that change something |
| Fixture.TransientIff | crates/nigiri-rs-fixtures/src/lnd_pair.rs:1188-1207 | A failure is waited out if and only if the deadline passed, the connection failed or the code is 2, 4, 8, 10 or 14 |
| Fixture.OnlyUnansweredIsTransient | crates/nigiri-rs-fixtures/src/lnd_pair.rs:1188-1207 | No error of another kind is waited out |
| PaymentStream.ConsumePaymentStream | crates/nigiri-rs-lnd/src/payment.rs:282-376 | The loop computes the verdict that the shape of the trace decides |
| PaymentStream.ShapeUnique | crates/nigiri-rs-lnd/src/payment.rs:349-374 | A trace has exactly one shape |
| PaymentStream.OkIff | crates/nigiri-rs-lnd/src/payment.rs:282-376 | `Ok` if and only if valid nonterminal updates are followed by one or more identical succeeded ones, whatever stops the stream |
| PaymentStream.PaymentFailedIff | crates/nigiri-rs-lnd/src/payment.rs:282-376 | `PaymentFailed` if and only if the same shape ends in a failed update, with the reason that update gives |
| PaymentStream.OutcomeUnknownIff | crates/nigiri-rs-lnd/src/payment.rs:298-310 | The outcome is unknown if and only if waiting fails before any terminal update |
| PaymentStream.OtherwiseInvalid | crates/nigiri-rs-lnd/src/payment.rs:311-374 | Every other verdict is an invalid response that names the payment |
| PaymentStream.OkIsProven | crates/nigiri-rs-lnd/src/convert.rs:214-255 | A reported payment is proved by its preimage and has the expected hash and amount |
| PaymentWire.TakenIff | crates/nigiri-rs-lnd/src/convert.rs:214-255 | An update is taken if and only if its fields say the expected hash and amount, no negative numbers and, with status 2, the preimage of the hash; the record holds these fields |
| PaymentWire.RefusedFor | crates/nigiri-rs-lnd/src/convert.rs:214-255 | For which fault another update is refused, and whose hash the error names |
| PaymentWire.PaidIff | crates/nigiri-rs-lnd/src/payment.rs:282-376 | A payment is reported as made if and only if one update with status 2 is repeated to the end, after others that are taken with a status other than 2 and 3; the record is what it says, fee and preimage included |
| PaymentWire.FailedIff | crates/nigiri-rs-lnd/src/payment.rs:282-376 | It is reported as failed if and only if that update has status 3, with the reason for its code |
| PaymentWire.UnknownIff | crates/nigiri-rs-lnd/src/payment.rs:298-310 | The outcome is unknown if and only if waiting fails while all updates have another status |
| PaymentWire.UnfinishedIff | crates/nigiri-rs-lnd/src/payment.rs:311-374 | A stream that stays open, one that ends twice and one that is open again are told apart by the status of their updates |
| PaymentWire.ReasonIs | crates/nigiri-rs-lnd/src/payment.rs:447-463 | The texts of the reason codes |
| PaymentWire.ReasonInjective | crates/nigiri-rs-lnd/src/payment.rs:447-463 | No two codes have the same text |
| PaymentWire.RequestIff | crates/nigiri-rs-lnd/src/payment.rs:392-412 | What is sent for an order: its fee limit and its timeout, if and only if both fit, the timeout in whole positive seconds |
| PaymentWire.PayInvoiceOkIff | crates/nigiri-rs-lnd/src/payment.rs:194-222 | An invoice is reported as paid if and only if its order was sent and answered, and the stream ends with status 2 for its own hash and amount |
| PaymentWire.LookupOkIff | crates/nigiri-rs-lnd/src/payment.rs:224-256 | The same of a lookup, whatever the amount |
| PaymentStream.InsertNonterminal | crates/nigiri-rs-lnd/src/payment.rs:349-374 | Further valid nonterminal updates before the first terminal one never change the verdict |
| PaymentStream.RepeatTerminal | crates/nigiri-rs-lnd/src/payment.rs:356-360 | Repeating the terminal update never changes the verdict |
| PaymentStream.FailureReason | crates/nigiri-rs-lnd/src/payment.rs:447-463 | The text for a reason code is far below the bound at which it would be cut |
| PaymentStream.PayInvoiceErrors | crates/nigiri-rs-lnd/src/payment.rs:194-222 | An invalid request if and only if nothing was sent; once sent, a payment fails definitively, invalidly or with an unknown outcome, the last exactly when LND may have acted unseen |
| PaymentStream.LookupErrors | crates/nigiri-rs-lnd/src/payment.rs:224-256 | A lookup never times out, is an invalid request if and only if its deadline cannot be represented, and fails in the transport if and only if its first answer does |
| ChannelOpen.PointFormsAgree | crates/nigiri-rs-lnd/src/convert.rs:104-118 | A point in bytes is the point in text if and only if the text is the reversed bytes and the indices agree |
| ChannelOpen.DisplayInjective | crates/nigiri-rs-lnd/src/channel.rs:207-220 | The identifier in an error determines the outpoint |
| ChannelOpen.BytesPointIs | crates/nigiri-rs-lnd/src/convert.rs:104-118 | A point in bytes is taken as it is, if and only if they are 32 |
| ChannelOpen.TextPointIs | crates/nigiri-rs-lnd/src/convert.rs:104-118 | A point in text is 64 hexadecimal digits, and prints as them and its index |
| ChannelOpen.DisplayDigits | crates/nigiri-rs-lnd/src/channel.rs:207-220 | A point is printed from the last byte of its id to the first |
| ChannelOpen.FollowOpenStream | crates/nigiri-rs-lnd/src/channel.rs:94-169 | The loop computes the verdict that the shape of the trace decides |
| ChannelOpen.OkIff | crates/nigiri-rs-lnd/src/channel.rs:123-155 | `Ok(p)` if and only if zero or more announcements of p are followed by p reported open |
| ChannelOpen.PendingThenFailure | crates/nigiri-rs-lnd/src/channel.rs:111-119 | After a pending point any failure or deadline is an unknown outcome that carries it |
| ChannelOpen.OutcomeUnknownIff | crates/nigiri-rs-lnd/src/channel.rs:95-119 | Exactly when the outcome is unknown |
| ChannelOpen.NeverBlind | crates/nigiri-rs-lnd/src/channel.rs:95-119 | No failure is a timeout or a transport failure; definitive refusals only come first |
| ChannelOpen.InvalidNamesPending | crates/nigiri-rs-lnd/src/channel.rs:120-168 | An invalid response names the pending point, unless the update itself holds a malformed one |
| ChannelOpen.RefusedFor | crates/nigiri-rs-lnd/src/channel.rs:120-168 | With which detail and which point the first update that does not go on is refused |
| ChannelOpen.BrokenOff | crates/nigiri-rs-lnd/src/channel.rs:95-119 | A stream that breaks off at once is reported as an unanswered request is |
| ChannelOpen.OpenChannelOkIff | crates/nigiri-rs-lnd/src/channel.rs:76-170 | A channel is opened if and only if its amounts fit the request, the request was answered and the stream announces one point, if any, and reports it open |
| ChannelOpen.OpenChannelErrors | crates/nigiri-rs-lnd/src/channel.rs:76-170 | The same for the whole call, which is an invalid request if and only if nothing was sent; its success means that the stream reported the point open |
| Wallet.ValidateCipherSeed | crates/nigiri-rs-lnd/src/wallet_unlocker.rs:170-192 | Accepts exactly 24 words of 1 to 1024 bytes; the total is never what refuses |
| Wallet.InitializeWallet | crates/nigiri-rs-lnd/src/wallet_unlocker.rs:74-156 | What one attempt sends and how it ends, for all answers |
| Wallet.InitializeLndClient | crates/nigiri-rs-fixtures/src/lnd_pair.rs:1254-1282 | The retry loop computes what a run sends and how it ends |
| Wallet.RetriedIff | crates/nigiri-rs-fixtures/src/lnd_pair.rs:1284-1292 | Exactly the transient failures to get a seed are retried, though the test is on a label |
| Wallet.InitWalletAtMostOnce | crates/nigiri-rs-fixtures/src/lnd_pair.rs:1254-1282 | Over any run InitWallet is sent at most once, last, with the original password and the valid seed just given |
| Wallet.RunOkIff | crates/nigiri-rs-fixtures/src/lnd_pair.rs:1254-1282 | A run succeeds if and only if an attempt does and all before it were retried |
| Wallet.AfterInit | crates/nigiri-rs-lnd/src/wallet_unlocker.rs:115-143 | Once InitWallet was sent, no error invites another attempt |
| Wallet.MacaroonIff | crates/nigiri-rs-fixtures/src/lnd_pair.rs:1254-1292 | A run returns a macaroon if and only if the password has 8 to 65536 bytes and, after attempts whose seed may still come, the node gives 24 words and this macaroon in time |
| Wallet.SentIs | crates/nigiri-rs-fixtures/src/lnd_pair.rs:1254-1292 | What such a run sent: a request for a seed in each attempt, and last the password with the seed it was given |
| Wallet.FailsWith | crates/nigiri-rs-lnd/src/wallet_unlocker.rs:74-156 | How a run fails whose last attempt gets no seed, a wrong one, or no usable macaroon |
| FundingRace.OpenAndConfirmChannel | crates/nigiri-rs-fixtures/src/lnd_pair/channel.rs:171-251 | The race, the mining and the check compute result and actions of the specification |
| FundingRace.RunIsSafe | crates/nigiri-rs-fixtures/src/lnd_pair/channel.rs:171-251 | In every interleaving: at most one mining, of six blocks, right after something new was seen; the open call is never polled after completing |
| FundingRace.OkIsConfirmed | crates/nigiri-rs-fixtures/src/lnd_pair/channel.rs:230-250 | A reported point was given by the open call, was absent at first and was among what triggered the successful mining |
| FundingRace.ConfirmedIff | crates/nigiri-rs-fixtures/src/lnd_pair/channel.rs:171-251 | A point is reported if and only if in some round, with nothing gone wrong before it, something new is in the mempool, the mining succeeds, the open call gives this point, before that round or after the mining, and its transaction is among what is new |
| FundingRace.ReportedOrRefused | crates/nigiri-rs-fixtures/src/lnd_pair/channel.rs:232-249 | When all went well but for that, the point is refused as not observed |
| FundingRace.FailsWithFirst | crates/nigiri-rs-fixtures/src/lnd_pair/channel.rs:171-231 | Every other run ends with the first thing that went wrong |
| FundingRace.MinesIff | crates/nigiri-rs-fixtures/src/lnd_pair/channel.rs:195-230 | Blocks are mined if and only if something new showed up while nothing had gone wrong |
| FundingRace.NoTriggerNoMining | crates/nigiri-rs-fixtures/src/lnd_pair/channel.rs:195-221 | A run that ends before anything new was seen mines nothing |
| ReverseReadiness.ReasonTellsCode | crates/nigiri-rs-fixtures/src/lnd_pair/channel.rs:509-515 | The reason texts that are retried stand for exactly the codes 2 and 5 |
| ReverseReadiness.WaitForSettledInvoice | crates/nigiri-rs-fixtures/src/lnd_pair/channel.rs:469-507 | The wait succeeds if and only if a look finds the invoice settled before any reason to stop |
| ReverseReadiness.ProveReverseReadiness | crates/nigiri-rs-fixtures/src/lnd_pair/channel.rs:375-435 | The retry loop computes the result of a run, and which invoices it starts to pay |
| ReverseReadiness.RetriedMeansFailed | crates/nigiri-rs-fixtures/src/lnd_pair/channel.rs:418-431 | A payment is retried if and only if its stream settled on a failed update with code 2 or 5 |
| ReverseReadiness.ReadinessRequest | crates/nigiri-rs-fixtures/src/lnd_pair.rs:721-731 | A readiness payment is sent with a fee limit of 10 000 and a timeout of 30 seconds |
| ReverseReadiness.StartedIff | crates/nigiri-rs-fixtures/src/lnd_pair/channel.rs:375-435 | A payment is started if and only if all before it provably failed, the channel is active and there is a fresh invoice |
| ReverseReadiness.PaidAtMostOnce | crates/nigiri-rs-fixtures/src/lnd_pair/channel.rs:375-435 | In any run every payment but the last one started provably failed |
| ReverseReadiness.PaidIsVerified | crates/nigiri-rs-fixtures/src/lnd_pair/channel.rs:452-467 | The check of hash and state never refuses a payment that was made |
| ReverseReadiness.ReverseReadyIff | crates/nigiri-rs-fixtures/src/lnd_pair/channel.rs:375-435 | Readiness is proved if and only if the last attempt was paid with its own hash and settled, and every earlier one provably failed |
| PegIn.CompletePegIn | crates/nigiri-rs-core/src/peg.rs:253-296 | The claim loop computes history and result of the specification |
| PegIn.AnyNodes | crates/nigiri-rs-core/src/peg.rs:253-296 | On any nodes: one deposit, at most 21 claims of the same pair, one block between, each repeated only after an immature refusal |
| PegIn.CompleteIff | crates/nigiri-rs-core/src/peg.rs:253-296 | A run succeeds with a history and a result if and only if the history is the deposit of the amount to the address given, its mining to the depth, the questions about it and claims of the answers, the last one accepted |
| PegIn.OnlyItsDeposit | crates/nigiri-rs-core/src/peg.rs:253-296 | The one deposit is of the asked amount; transaction, proof and claims are about it and nothing else, and the result names it |
| PegIn.DepositIsNamed | crates/nigiri-rs-core/src/peg.rs:196-260 | An error in mining the deposit names it; one that is not deep enough says how deep it is and must be |
| PegIn.RetriedIsImmature | crates/nigiri-rs-core/src/peg.rs:89-102 | Of the errors of a node only the one refusal is retried |
| PegIn.FaithfulPegIn | crates/nigiri-rs-core/src/peg.rs:82-102 | On faithful nodes success, extra blocks and number of claims are exactly as T and the depth say, with the last refusal otherwise |
| PegIn.PrepareFaithful | crates/nigiri-rs-core/src/peg.rs:196-208 | The fetch never finds the deposit immature |
| PegOutScript.DecodePegOutScript | crates/nigiri-rs-core/src/peg/output.rs:29-57 | The iterator-driven decoder, raw copy included, computes the specification |
| PegOutScript.Instructions.Next | crates/nigiri-rs-core/src/peg/output.rs:30-50 | One step of the instruction iterator, in place |
| PegOutScript.DecodeIff | crates/nigiri-rs-core/src/peg/output.rs:29-57 | A script decodes to a target if and only if it is OP_RETURN and two pushes, each in any of the four forms, followed by anything |
| PegOutScript.MissingIff | crates/nigiri-rs-core/src/peg/output.rs:29-57 | Which of the three parts of another script is reported as missing |
| PegOutScript.LowestFirst | crates/nigiri-rs-core/src/peg/output.rs:30-50 | The length of a push has its lowest byte first |
| PegOutScript.ScriptRoundTrip | crates/nigiri-rs-core/src/peg/output.rs:3-7 | Any encoded genesis and nonempty destination decodes back to itself |
| PegOut.DecodePegOut | crates/nigiri-rs-core/src/peg.rs:369-446 | The scan over the outputs computes the specification, errors and their order included |
| PegOut.DecodeOkIff | crates/nigiri-rs-core/src/peg.rs:369-446 | A payout is decoded if and only if exactly one output is a peg-out of this pair and it pays that |
| PegOut.NotFoundIff | crates/nigiri-rs-core/src/peg.rs:438-444 | Nothing is found if and only if no output has the form of a peg-out |
| PegOut.MismatchIff | crates/nigiri-rs-core/src/peg.rs:378-407 | A mismatch is reported if and only if there are peg-outs, but none of this pair |
| PegOut.MismatchNamesFirst | crates/nigiri-rs-core/src/peg.rs:378-401 | The parent it names is that of the first peg-out |
| PegOut.FirstOursDecides | crates/nigiri-rs-core/src/peg.rs:403-436 | What is wrong with the first peg-out of this pair is reported, before a second one is refused |
| PegOut.PermutationInvariant | crates/nigiri-rs-core/src/peg.rs:384-433 | The order of the outputs does not matter |
| PegOut.OthersDoNotMatter | crates/nigiri-rs-core/src/peg.rs:378-401 | Outputs that are no peg-out of this pair, put in anywhere, change nothing about what is paid |
| PegOut.NeverAmbiguous | crates/nigiri-rs-core/src/peg.rs:403-407 | With two peg-outs of this pair nothing is paid |
| PegOut.WrittenIsPaid | crates/nigiri-rs-core/src/peg.rs:345-366 | What a node writes as a peg-out is decoded to just that destination and amount |
| Endpoint.CanonicalIsStable | crates/nigiri-rs-lnd/src/endpoint.rs:23-29 | A canonical host is accepted as the same host again |
| Endpoint.NameIff | crates/nigiri-rs-lnd/src/endpoint.rs:87-127 | A text is accepted as a name if and only if it is written out of labels of 1 to 63 letters, digits and inner hyphens, not all digits and no onion service, within 253 bytes |
| Endpoint.Ipv4IsCanonical | crates/nigiri-rs-lnd/src/endpoint.rs:81-83 | An accepted IPv4 text is its own canonical form |
| Endpoint.OnionIsStable | crates/nigiri-rs-lnd/src/endpoint.rs:95-109 | A canonical onion name is accepted as the same service |
| Endpoint.EndpointRoundTrip | crates/nigiri-rs-lnd/src/endpoint.rs:39-62 | The canonical form of any accepted endpoint parses to itself |
| Endpoint.PeerAddressRoundTrip | crates/nigiri-rs-lnd/src/types.rs:146-161 | Any accepted peer address prints as an endpoint that parses to itself |
| Endpoint.NormalizeIdempotent | crates/nigiri-rs-lnd/src/endpoint.rs:12-21 | Normalising a host again changes nothing |
| Endpoint.SerializeInjective | crates/nigiri-rs-lnd/src/endpoint.rs:31-37 | No two pairs of normal host and port print the same |
| EndpointGrammar.HostIff | crates/nigiri-rs-lnd/src/endpoint.rs:64-127 | Exactly which texts are accepted as hosts, and what becomes of each |
| EndpointGrammar.OutboundIff | crates/nigiri-rs-lnd/src/endpoint.rs:12-17 | An outbound host is one of these that is no version 2 onion service |
| EndpointGrammar.Ipv4Iff | crates/nigiri-rs-lnd/src/endpoint.rs:81-83 | An IPv4 address is four numbers up to 255 without superfluous zeros |
| EndpointGrammar.OnionIff | crates/nigiri-rs-lnd/src/endpoint.rs:95-109 | An onion service is 16 or 56 base 32 characters in either case before `.onion`; it comes out in lower case |
| EndpointGrammar.PortIff | crates/nigiri-rs-lnd/src/endpoint.rs:56-59 | A port is digits, perhaps behind a plus sign, that stand for at most 65535 |
| EndpointGrammar.EndpointIff | crates/nigiri-rs-lnd/src/endpoint.rs:39-62 | An endpoint is accepted if and only if it is a host that is accepted, in brackets when it has a colon, and a port that is not 0; it comes out as the normal host and the port |
| EndpointGrammar.PeerAddressIff | crates/nigiri-rs-lnd/src/types.rs:146-161 | A peer address is refused for a blank host, then for port 0, then for its host, and holds the normal host otherwise |
| Ledger.ResourceLedger.constructor | crates/nigiri-rs-fixtures/src/runtime/resources.rs:23-26 | A new ledger is empty |
| Ledger.ResourceLedger.ExpectNetwork | crates/nigiri-rs-fixtures/src/runtime/resources.rs:29-32 | Appends an unconfirmed network |
| Ledger.ResourceLedger.ExpectContainer | crates/nigiri-rs-fixtures/src/runtime/resources.rs:34-37 | Appends an unconfirmed container |
| Ledger.ResourceLedger.ConfirmContainer | crates/nigiri-rs-fixtures/src/runtime/resources.rs:39-41 | Confirms the newest entry of the name |
| Ledger.ResourceLedger.ConfirmNetwork | crates/nigiri-rs-fixtures/src/runtime/resources.rs:43-45 | Confirms the newest entry of the name |
| Ledger.ResourceLedger.ConfirmNewest | crates/nigiri-rs-fixtures/src/runtime/resources.rs:47-56 | The backward search confirms the newest entry of the name and nothing else |
| Ledger.ResourceLedger.TakeCleanupOrder | crates/nigiri-rs-fixtures/src/runtime/resources.rs:58-60 | Hands over everything in reverse and drains the ledger |
| Ledger.Perform | crates/nigiri-rs-fixtures/src/runtime/resources.rs:28-61 | Any sequence of operations on a real ledger does what the specification says |
| Ledger.EachOnce | crates/nigiri-rs-fixtures/src/runtime/resources.rs:28-61 | Every expected resource is handed over exactly once or still held, unconfirmed ones included, and nothing else is |
| Ledger.HeldInOrder | crates/nigiri-rs-fixtures/src/runtime/resources.rs:28-61 | The ledger keeps the order of creation |
| Ledger.IdIsLatest | crates/nigiri-rs-fixtures/src/runtime/resources.rs:47-56 | An entry's id is that of the latest confirmation that found it the newest of its name |
| Ledger.TakeStartsOver | crates/nigiri-rs-fixtures/src/runtime/resources.rs:58-60 | After a handover the ledger starts over |
| NodeArgs.MergeNodeArgs | crates/nigiri-rs-fixtures/src/node.rs:31-43 | Filtering and extending computes the specification |
| NodeArgs.MergeMeaning | crates/nigiri-rs-fixtures/src/node.rs:22-43 | Each key is set just as the composite sets it or, failing that, just as the chain does |
| NodeArgs.KeptIff | crates/nigiri-rs-fixtures/src/node.rs:22-43 | An argument `key` or `key=value` of the chain is kept if and only if no argument of the composite is of that form; those of the composite are all kept |
| NodeArgs.MergeIdempotent | crates/nigiri-rs-fixtures/src/node.rs:31-43 | Merging the same arguments again changes nothing |
| NodeArgs.MergeAssociative | crates/nigiri-rs-fixtures/src/node.rs:31-43 | Merging is associative |
| Amounts.ValidateIff | crates/nigiri-rs-fixtures/src/lnd_pair.rs:427-478 | The numeric guards accept if and only if three conditions hold |
| Amounts.ConvertIff | crates/nigiri-rs-lnd/src/convert.rs:72-102 | Exactly which reported balances convert |
| Amounts.AcceptedAllTheWay | crates/nigiri-rs-lnd/src/channel.rs:187-205 | An accepted allocation is rejected nowhere behind the guards, and balances within it convert |

## Left out

- AnchoredExact.IdempotentIff: behind the first loose orphan the condition looks at what the pass has written, not at the input alone: from there on the two passes are out of step, and where the second one meets a key depends on the markers the first one has put in. `NoLooseSettles` is the guard on the input.
- RedactTwice.RedactsOnceIff: the condition is about the output; the guard on the input, `SettledRedactsOnce`, is sufficient.
- Echo.AnchorLeftIff: is about anchors that overlap neither end of the marker. With others the output depends on the text next to each echo; `OverlapIsLeft` shows that the condition is needed.
- CleanOutput.TailIsClean: nothing of the kind is stated of the head, whose cut can fall inside a marker, so that what is left of it does not count as one. That it holds no byte of a secret is `Exposure.HeadHidesSecrets`.
- Exposure.HidesSecretsIff: a secret is what is structured in the text that the private-key pass has written, which is what the anchored pass reads. Keys inside a block, and hyphens that only its dashes gave to a line, are gone by then and do not count.
- Exposure.TailHidesSecrets: stated one way, as the head is; a secret that is left can also be cut off.
- Deadlines are an event that can end any wait; clocks, runtimes, transport, TLS, JSON and protobuf encoding are not modelled. Two updates have the same wire form exactly when they are equal.
- The cut of long error texts (`crates/nigiri-rs-lnd/src/error.rs:102-113`): only that no failure reason reaches it.
- The truncation note and the lossy decoding around an HTTP error body; status and transport errors of `send`.
- Creating and looking up invoices, BOLT11 parsing, the forward readiness payment, which is one attempt of the reverse one without retry.
- The waits for balance, peers, active channels and chain synchronisation: each returns on one test of one round of answers. A run of reverse readiness takes the answer of such a wait as given.
- Both nodes' wallets are initialised concurrently; the result holds for each node by itself.
- `send_to_mainchain` and paying the decoded peg-out, which calls the faucet once.
- The rendering of error chains, log collection, the supervisor and engine of the runtime, builders, images and configuration defaults.
- Public keys and certificates.
