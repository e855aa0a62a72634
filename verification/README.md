# Eidolon operations: a verified model

Eidolon Ops installs, updates and resets the small Hosts that run the Eidolon product. This
project models its hardest decisions, and proves what they promise for every input and every
run:

* **The LAN ingress** (`HttpText`, `LanIngress`, `LanIngressChunks`, `LanIngressRewriting`,
  `HttpFraming`, `LanIngressFields`). A TLS relay reads HTTP/1.1 heads off a byte stream, adds
  one header to each and passes bodies through, until CONNECT (section 9.3.6 of RFC 9110),
  Upgrade (section 7.8 of RFC 9110) or a framing it does not know ends the reading. The
  incremental object is proved against a whole-stream function, and that function against
  independent statements: cuts do not matter, framing is kept, relays compose, requests
  arrive, what becomes of every stream, and the body lengths it goes by are those of section
  6.3 of RFC 9112, with every difference named.
* **The Owner Authority protocol** (`OwnerDirectory`, `InstallDecision`, `AuthorityProtocol`,
  `AuthorityRuns`, `AuthorityProgress`). One profile, any number of boards, any interleaving
  of installs, confirmations, crashes, retries, Hub's own steps, identity replacements and
  boards changed by others. Safety over whole runs: bindings stand and were proved, lineages
  never change, a stale capability is caught, a delivered board stays the only one that
  proceeds. For each verb, exactly when it goes through. And progress: an install left to
  finish delivers, and a spoiled one delivers on its retry. The signed directory's revision
  line is a second state machine inside it.
* **Credentials** (`CredentialClasses`, `CredentialRepair`, `CredentialFiles`). Union-find with
  path halving and a worklist both give the connected components of the pair table; the
  additive repair is a pass over what the files say, and its verbs read and write the files
  themselves; withdrawing and repairing leaves files the contract accepts exactly under two
  conditions on what the files held before.
* **Component topology** (`Paths`, `ComponentContract`, `UnitGraph`, `ComponentTopology`,
  `ResetScope`). Capability selection is a homomorphism; reading a set of contracts succeeds
  exactly on acceptable sets and yields a start order; a wipe covers every declared
  authority path, and reaches it exactly when following `..` does not lead out of the roots.
* **Commits and text stores** (`IdentityReplacement`, `KnownHosts`, `KnownHostsFile`,
  `KnownHostsBreaks`, `ProviderEnv`, `Environment`, with `TextLines`, `EnvLines` and
  `LineWords`). An all-or-nothing sequence of renames, a known_hosts rewrite on the file's text
  with an exact frame condition, and two environment-file codecs with exact round trips.

`Common` holds the option and result types. `dafny verify dfyconfig.toml` checks everything.

Objects that update their fields are classes (`ObservedHostHeads`, `Material`,
`DeliveryStore`, `HostLayer`, `Controller`, `LocalProduct`, `Forest`, `InputSet`,
`CycleSearch`, `Disk`), and loops are methods with invariants. Each is proved against a
function or a predicate, about which the lemmas then speak.

## What the code does not promise

Where a natural statement is false of the code, the model keeps the code, shows a case, and
proves exactly when the statement holds.

* *Chunk independence.* The relay gives up on a head once more than 64 KiB are held without a
  blank line, so a head may have one byte more than that and still be held up to its last
  byte. `CutsAgreeIffHeadsFit` is the exact condition; `LongRequestDoesNotFit` is a plain GET
  with a target of 64 KiB or more.
* *Body lengths.* Where the standard tells a length the relay may stop following instead
  (`StandardIsFollowedIff` says exactly when), which costs only its header. It goes by a
  length the standard does not tell exactly where `int` reads more than digits, such as `+5`
  (`FollowedIsTheStandards`), and an empty line in front hides a CONNECT from it
  (`EmptyLineHidesATunnel`).
* *The revision line.* It never falls within one generation. Across generations it restarts,
  and a held document from before the current contract yields to any older one the Host
  serves, although the comment on adoption says a newer revision is never walked back.
  `RevisionFallsExactlyWhen` says when; `GenerationsInterleaveBackwards` and
  `OlderContractYields` are the cases.
* *Provider files.* A value wrapped in one pair of quotes loses them when it is written and
  read again: `ProviderEnv.RoundTripIff`, with `QuotedTwice` as the case.
* *The credential repair.* Its documentation says that it touches no value already there. It
  writes a file whole, so a value that is still wrapped in quotes after reading loses them:
  `ReadBackExtendsIff` is the exact condition, and `RereadExtendsIff` for the withdrawal. Two
  files that agree on such a value disagree once one of them is written
  (`WrappedPairIsSplit`), so what the contract check says after both verbs depends on what is
  read back: `WithdrawThenAdd` and `SharedValuesHoldIff`; without
  wrapped values it is what was kept that counts (`SettledWhenNothingIsWrapped`). A second
  repair adds nothing, but can refuse a provider's value that became too short: `SecondRepair`
  and `AddTwice`, with `ShortProviderStopsTheNextRun` as the case. And a file with an empty
  value in it is refused whenever it has to be written.
* *Rendered environment files.* `_require_safe` refuses newline, carriage return and NUL, but
  `splitlines` breaks at eight more characters, so a vertical tab passes and is not read back:
  `SafeIsNotLasting`, with `Environment.RoundTripIff` as the exact condition. Nor can anything
  be merged after it: `MergingTwiceCanFail`, with `MergeTwiceIff` as the exact condition.
* *known_hosts.* The documentation says other aliases are preserved. The code cuts the file,
  and what OpenSSH prints of it, at every line break Python knows, and OpenSSH ends a line at
  a newline only: a vertical tab in a comment and an entry after it become a line of their own
  (`CommentBecomesALine`), and an entry printed along with the alias's is taken for the
  alias's wherever the file holds it (`HashIsTakenAlong`). Without such breaks, a list such as
  `a,` that loses `a` leaves nothing in front of the key type, and a list such as `a,@b` or
  `a,|1|b` leaves what reads as a marker or a hashed host. `WriteReplacesOneAliasIff` is the
  exact condition for any lines: each, rewritten on its own, says what it said, and none
  prints a hash that another holds. `WholeLinesIff` is what it comes to for lines without a
  break in them, `CommentKeepsIff` for an entry with one in its comment. Two spoiled lines may
  make up for one another in one file (`SpoiledLinesCanCancel`), so both are stated of all
  files made of the same lines.
* *Selection.* The documentation says a port only dropped units served is withdrawn. The code
  looks at the set of unit ids, and neither the schema nor the checks on one contract ask
  that an id be declared once; claims see only the units selected. `SharedIdHidesADrop` and
  `SharedIdDoesNotCompose` are the cases, and the results with `Iff` in their names the exact
  conditions, on any contract.
* *The wipe.* `Path.is_relative_to` compares names, and neither the schema nor the checks on a
  contract refuse `..` in a declared path (the configuration, the profile paths and the Host
  agent do refuse it in theirs), so a covered path can lead out of every root and its state
  survives: `ClimbingStateSurvives`, with `WipeReachesIff` as the exact condition. Claims on
  installed files compare text in the same way: `TwoWritersOfOneFile`, with
  `EachFileHasOneWriter` for paths without `..`. Whose an entry of a reset is
  (`AuthorityIsClaimed`) is decided by names too.
* *Identity replacement.* Nothing stops an operation from confirming after the identity was
  replaced. It then records the new Host id for the board it addressed, whatever Owner that
  board shows: `LateConfirmation`. The results over runs take a replacement to end the
  operations in flight. A machine that is its own Host deletes the binding before it commits
  the new identity, so a refused commit loses the binding and keeps the identity: a
  replacement step of `AuthorityRuns` may therefore end in the old profile.

## What is assumed

* One operation talks to one board throughout, and Hub takes a pending capability only into
  an empty database. Everything else may happen between any two steps. An identity
  replacement ends the operations in flight, except in `LateConfirmation`.
* A board's agent reports its two lineage copies as they are, and `established` exactly when
  they agree.
* Signatures are idealised: a directory names its signer, and a validity check is the
  comparison with this material's signer. Hashes, digests and hardware fingerprints are
  values. What JSON, TOML and `ssh-keygen -F` answer is a parameter, except that for a plain
  host list the answer is whether the name is on it, letter case aside. A name OpenSSH is
  asked for is one host name: one word, no comma, pattern, marker, comment or hash. In
  `WholeLinesIff` a hash stands for one host and answers for one name, letter case aside.
* OpenSSH separates the words of a line at white space that ends no line and at a carriage
  return, which it skips in a key; host names fold as ASCII. A key type and a key are one word
  each, as `scan` yields them. A known_hosts file that is not there is an empty one.
* The credential tables are parameters; every shared slot is a required key without a fixed
  value, and one key of a file has one writer. Required keys have the form the files allow,
  and fixed and minted values are not empty, hold no white space and are not wrapped in
  quotes, which is so of the tables in the source, of URL-safe tokens and of base64. A minted
  value has at least 24 characters.
* A path starts with one slash, and no symbolic link is followed.
* The paths of one identity commit are distinct, the retired directory is new, and undo steps
  succeed. Any of the renames may be refused, and staging may be incomplete.
* Where it is said so, a contract's inputs and services name its own units and port roles,
  which the checks on one contract demand before selection.

## Model

| member | source | states |
|---|---|---|
| HttpText.JoinOfLines | src/eidolon_ops/lan_ingress.py:121-128 | Splitting a head at CRLF and joining again loses nothing, and no line it yields holds a separator. |
| HttpText.LinesOfJoin | src/eidolon_ops/lan_ingress.py:121-128 | Joining separator-free lines and splitting again gives back exactly those lines. |
| HttpText.BlankOfJoin | src/eidolon_ops/lan_ingress.py:163 | The byte search for the first blank line finds the line-level one, for any joined lines. |
| HttpText.HeadByLines | src/eidolon_ops/lan_ingress.py:163-168 | A byte string cut after its first blank line is exactly a start line, non-empty field lines and the end mark. |
| HttpText.BlankIsStable | src/eidolon_ops/lan_ingress.py:163 | The first blank line of a stream does not move when more bytes arrive, and one that appears later ends past what was there. |
| HttpText.PyIntReadsDecimal | src/eidolon_ops/lan_ingress.py:102-107 | A length written in decimal is read back as that length, up to the 4300 digits `int` accepts. |
| HttpText.PyIntReadsIff | src/eidolon_ops/lan_ingress.py:102-107 | What `int` reads is exactly an optional sign and digits, in groups joined by single underscores, white space around them aside, at their decimal value. |
| LanIngress.BodyLength | src/eidolon_ops/lan_ingress.py:71-108 | The one-pass loop with its early returns gives the declarative framing: no CONNECT, no Transfer-Encoding or Upgrade field, and zero or one Content-Length whose value is a non-negative integer; nothing otherwise. |
| LanIngress.ObservedHostHeads.constructor | src/eidolon_ops/lan_ingress.py:145-149 | A connection starts with an empty buffer, no body owed and not relaying. |
| LanIngress.ObservedHostHeads.Feed | src/eidolon_ops/lan_ingress.py:151-178 | The in-place loop sends on exactly what the whole-buffer function says and leaves exactly its buffer, counter and flag. |
| LanIngressChunks.TwoReads | src/eidolon_ops/lan_ingress.py:151-178 | Reading a and then b is reading a + b, in output and in what is held, for every stream whose heads fit. |
| LanIngressChunks.PrefixFits | src/eidolon_ops/lan_ingress.py:163-166 | Every prefix of a stream whose heads fit has heads that fit. |
| LanIngressChunks.ChunkIndependence | src/eidolon_ops/lan_ingress.py:151-178 | For any cutting of a stream into reads, the concatenated outputs and the final buffer, body counter and relay flag are those of one read of the whole stream. |
| LanIngressChunks.LongHeadIsCut | src/eidolon_ops/lan_ingress.py:163-166 | A stream with a head that does not fit has a prefix and a cut of it that the relay answers differently. |
| LanIngressChunks.CutsAgreeIffHeadsFit | src/eidolon_ops/lan_ingress.py:151-178 | The bound is exact: all two-way cuts of all prefixes agree if and only if every head the relay reads is at most 64 KiB + 1 bytes, or is sent on unchanged and ends the reading. |
| LanIngressRewriting.HeaderNamesTheObservation | src/eidolon_ops/lan_ingress.py:231-240 | The header line the ingress builds from an address is non-empty, holds no separator and is recognised as a copy of the observed-host field. |
| LanIngressRewriting.RewrittenShape | src/eidolon_ops/lan_ingress.py:111-128 | The lines of a rewritten head are the start line, the field lines that are not client copies in their order, the header, and the end mark. |
| LanIngressRewriting.RewrittenIsComplete | src/eidolon_ops/lan_ingress.py:111-128 | A rewritten head is one head: its first blank line is its last four bytes. |
| LanIngressRewriting.RewritingKeepsFraming | src/eidolon_ops/lan_ingress.py:71-128 | A rewritten head declares the same body length, or the same refusal to say, as the head the client sent. |
| LanIngressRewriting.RewritingReplaces | src/eidolon_ops/lan_ingress.py:111-128 | Rewriting with header x and then with y is rewriting with y alone. |
| LanIngressRewriting.RelayingTwice | src/eidolon_ops/lan_ingress.py:131-178 | A relay behind a relay, over whole streams: the second sends what it would have sent alone, bodies and unfollowed traffic included. |
| LanIngressRewriting.PipelinedRequests | src/eidolon_ops/lan_ingress.py:131-178 | Requests on one connection come out one by one, each head rewritten and each body byte for byte, before whatever follows them. |
| LanIngressRewriting.EveryStream | src/eidolon_ops/lan_ingress.py:151-178 | Every stream is some requests and a rest: the requests are sent on annotated, each with its own body; of the rest, a head that has not ended is held up to 64 KiB and passed on beyond, one that is not followed is annotated and all after it passed on, and a body that is not all there is passed on and the remainder owed. |
| LanIngressRewriting.RequestsArrive | src/eidolon_ops/lan_ingress.py:131-178 | However the network cuts the requests of one connection, the service receives each once, annotated, with its own body, and the relay ends as it began. |
| LanIngressRewriting.Relay | src/eidolon_ops/lan_ingress.py:181-196 | The pump of one direction sends the concatenation of what every read yields. |
| LanIngressFields.CopyIff | src/eidolon_ops/lan_ingress.py:121-128 | From any head, well formed or not, exactly those lines are dropped that open with Eidolon-Observed-Host, in any letter case and with any white space around it, up to a colon or the end. |
| LanIngressFields.FramingIff | src/eidolon_ops/lan_ingress.py:71-108 | For every head, well formed or not: the relay goes by a length exactly when the first line asks for no tunnel in any letter case, no line carries Transfer-Encoding or Upgrade, and either no line declares a length and it is zero, or one line does and `int` reads it as that. |
| HttpFraming.FramingOfText | src/eidolon_ops/lan_ingress.py:71-108 | On a head written as the standard asks, the relay stops following exactly at a tunnel in any letter case, a transfer coding, an upgrade, a second length or one that `int` refuses, and otherwise goes by the one declared length or by none. |
| HttpFraming.CaseIsFolded | src/eidolon_ops/lan_ingress.py:86-98 | Two names fold alike exactly when they differ letter by letter in ASCII case only. |
| HttpFraming.RewrittenText | src/eidolon_ops/lan_ingress.py:111-128 | A conforming head comes out as its request line, then every field but those whose name is Eidolon-Observed-Host letter for letter up to ASCII case, in their order and byte for byte, then the header and the end mark. |
| HttpFraming.StandardRequestsArrive | src/eidolon_ops/lan_ingress.py:131-178 | However the network cuts them, conforming requests of the standard's framing reach the service one by one, each with all its other fields, the header, and its own body. |
| HttpFraming.FollowedIsTheStandards | src/eidolon_ops/lan_ingress.py:71-108 | Where it follows such a head, its length is that of section 6.3 of RFC 9112 if and only if none is declared or the declared one is digits only. |
| HttpFraming.StandardIsFollowedIff | src/eidolon_ops/lan_ingress.py:71-108 | Where the standard tells a length, the relay goes by it exactly without a tunnel or an upgrade and with at most one length field, of at most as many digits as `int` reads. |
| HttpFraming.StandardRequestIsFollowed | src/eidolon_ops/lan_ingress.py:151-178 | A request of that kind, with a body of the standard's length, is one the relay follows to its end. |
| HttpFraming.EmptyLineHidesATunnel | src/eidolon_ops/lan_ingress.py:86-88 | For every CONNECT without those fields, an empty line in front makes the relay expect another request. |
| HttpFraming.LongRequestDoesNotFit | src/eidolon_ops/lan_ingress.py:163-166 | A plain GET with a target of 64 KiB or more is followed and does not fit: some cut of it changes what is sent on. |
| OwnerDirectory.Material.Write | src/eidolon_ops/owner_domain_assets.py:611-613 | Writing the descriptor replaces what is held and nothing else. |
| OwnerDirectory.Material.AdoptServed | src/eidolon_ops/owner_domain_assets.py:616-663 | A served directory is refused, kept out by a newer undelivered one, or held byte for byte; nothing is written when it is already held. |
| OwnerDirectory.Material.Directory | src/eidolon_ops/owner_domain_assets.py:500-613 | The in-place render returns and leaves what the pure render says, also when it fails half way, and writes nothing when the held file stays. |
| OwnerDirectory.RenderedIsOurs | src/eidolon_ops/owner_domain_assets.py:500-613 | Whatever a render returns, adopted, kept or issued, is signed by this material, for this Owner, generation, Host route and endpoints, and is in date. |
| OwnerDirectory.RenderServed | src/eidolon_ops/owner_domain_assets.py:616-663 | For a Host that serves a directory a render is refused exactly when it is unreadable, another Owner's, not signed by this material or of another generation, each named; otherwise it renders as though the further of the two on this line had been held. |
| OwnerDirectory.RenderAlone | src/eidolon_ops/owner_domain_assets.py:513-613 | From what is held alone: it comes back exactly while it is in date and says where this Host is reached and this material signed it, and otherwise the next revision of its line is issued for a year, or the one reason why not is named. |
| OwnerDirectory.RenderedReachesTheHost | src/eidolon_ops/owner_domain_assets.py:524-611 | Whatever is rendered sends a device to this Host and port for both authorities, under this Owner's name, and nowhere else. |
| OwnerDirectory.RenderContinuesTheLine | src/eidolon_ops/owner_domain_assets.py:500-663 | With a directory of this Owner and generation held, a render returns the newer of held and served, or issues exactly one past both. |
| OwnerDirectory.RevisionNeverFalls | src/eidolon_ops/owner_domain_assets.py:500-663 | Over any sequence of renders of one generation, failures included, at any endpoints and times, the held revision never falls. |
| OwnerDirectory.IssuedRevisionsAreNew | src/eidolon_ops/owner_domain_assets.py:579-613 | After any run at one generation, a newly issued directory has a revision strictly above the one held just before it, which is no lower than what the run began with, and above the served one. |
| OwnerDirectory.RevisionFallsExactlyWhen | src/eidolon_ops/owner_domain_assets.py:535-591 | For every file that carries a revision, a render goes below it exactly when a directory of another generation or Owner is given up, or a pre-contract one yields to an older served one. |
| OwnerDirectory.GenerationsInterleaveBackwards | src/eidolon_ops/owner_domain_assets.py:590-591 | Rendering another generation in between restarts a line at revision 1: a concrete case. |
| OwnerDirectory.OlderContractYields | src/eidolon_ops/owner_domain_assets.py:649-663 | A held document of revision 7 from before the current contract yields to a served one of revision 3: a concrete case. |
| OwnerDirectory.AdoptedByteForByteIff | src/eidolon_ops/owner_domain_assets.py:513-523 | A believed served directory comes back byte for byte exactly when it is up to date and nothing newer of this generation is held. |
| OwnerDirectory.BaselineStays | src/eidolon_ops/owner_domain_assets.py:513-523 | What a render returned is what it left held, and the baseline of a later render, for a Host that still serves what it served and for one that serves the result. |
| OwnerDirectory.RenderIsStable | src/eidolon_ops/owner_domain_assets.py:579-589 | Rendering again in date returns the same bytes and leaves them held, for a Host that serves the previous result, none, or still what it served before. |
| InstallDecision.DirectoryNamesItsHost | src/eidolon_ops/install_decision.py:195-212 | A directory that publishes itself at one Host's routing name names that Host and no other. |
| InstallDecision.HostIdForm | src/eidolon_ops/install_decision.py:195-212 | A Host id is its prefix and twenty hexadecimal digits. |
| InstallDecision.HardwareForm | src/eidolon_ops/host_delivery.py:31-54 | Hardware is named by a kind and a SHA-256 in hexadecimal. |
| InstallDecision.NamesHostIff | src/eidolon_ops/install_decision.py:195-212 | A directory names a Host exactly when its own route is `eidolon-hub-`, the Host's digits and `.local`. |
| InstallDecision.DecisionMeans | src/eidolon_ops/install_decision.py:154-192 | For every honest report, each of the eight situations is found exactly when its evidence is there, and only the three proceeding ones proceed. |
| InstallDecision.BoundProfileProceedsOnItsBoardOnly | src/eidolon_ops/install_decision.py:154-192 | While a binding stands, only the very hardware it records can be proceeded on, as a continuation. |
| InstallDecision.EstablishedIsRenderedExactly | src/eidolon_ops/owner_domain_assets.py:103-137 | A lineage taken from a Host and rendered again is the same document for its own Owner, and is refused for any other. |
| AuthorityProtocol.BindingIsWrittenOnce | src/eidolon_ops/host_delivery.py:31-54 | Recording a delivery succeeds exactly for a board that names its hardware where no binding is, or its own, and writes identity and hardware; it is idempotent and refuses every other board. |
| AuthorityProtocol.DeliveryStore.BindDelivery | src/eidolon_ops/host_delivery.py:38-54 | Binding succeeds exactly when the binding is absent or verifies, and a failure leaves the file as it was. |
| AuthorityProtocol.Begin | src/eidolon_ops/controller.py:1535-1601 | Everything before the Host is touched: what is in flight afterwards carries the report it was decided on and a decision that proceeds. |
| AuthorityProtocol.RendersWhatTheHostHolds | src/eidolon_ops/controller.py:1535-1601 | An operation renders exactly the lineage the Host holds; only a first install names a new one, at generation 1, for a Host reporting none and a profile without a binding. |
| AuthorityProtocol.BeginGoesThroughIff | src/eidolon_ops/controller.py:1535-1601 | An install goes through exactly when the board reports nothing and no binding is there, or marker and anchor agree on a lineage of this Owner that can be rendered and the board is the recorded one or proves itself by identity and served directory; and the render goes through. |
| AuthorityProtocol.ConfirmGoesThroughIff | src/eidolon_ops/controller.py:1603-1631 | A confirmation goes through exactly when the board reports the very lineage that was rendered and, after a first install or an adoption, nothing else is recorded; it then records that board. |
| AuthorityProtocol.TrustGoesThroughIff | src/eidolon_ops/controller.py:1633-1710 | For every honest report: the verb records exactly when marker and anchor agree on this Owner's lineage and either this board is recorded, or no binding is there, the identity is the profile's, the served directory names it, is this Owner's and signed by this material, and the hardware is named; each refusal of the last step is told apart. |
| AuthorityProtocol.RequireGoesThroughIff | src/eidolon_ops/host_layer.py:433-454 | An operation on an installed Host goes through exactly when what the board holds is this Owner's and can be rendered, and the board is the recorded one or proves itself by identity and served directory and names its hardware. |
| AuthorityProtocol.CommitGoesThroughIff | src/eidolon_ops/local_product.py:1106-1140 | A machine that is its own Host records itself exactly when its Hub established this Owner's Authority, it holds an identity, and the directory placed, or the one its material holds, names it; with nothing established nothing is recorded. |
| AuthorityProtocol.HostLayer.constructor | src/eidolon_ops/host_layer.py:119-126 | A new layer has observed nothing, decided nothing, and holds no Authority and no served directory; its profile is the one it was given. |
| AuthorityProtocol.HostLayer.ForgetHost | src/eidolon_ops/host_layer.py:351-358 | Forgetting a Host drops the report, the decision, the Authority and the served directory. |
| AuthorityProtocol.HostLayer.ObserveInstallContext | src/eidolon_ops/host_layer.py:371-380 | Observing a Host keeps its report for the rest of the operation and changes nothing else. |
| AuthorityProtocol.HostLayer.DecideInstall | src/eidolon_ops/host_layer.py:382-399 | The decision is the one for this profile's identity and recorded binding. |
| AuthorityProtocol.HostLayer.AdoptDecision | src/eidolon_ops/host_layer.py:408-431 | A proceeding decision sets the Host's own Authority with the directory it serves, or a fresh one with none; a refusal changes neither. |
| AuthorityProtocol.HostLayer.RecordDelivery | src/eidolon_ops/host_layer.py:459-472 | Without an observation nothing is recorded; otherwise the reported hardware is bound, once. |
| AuthorityProtocol.HostLayer.RequireEstablishedHost | src/eidolon_ops/host_layer.py:433-454 | An operation on an installed Host proceeds only on evidence, adopts what the Host holds, and records a delivery only where that evidence stands in for one. |
| AuthorityProtocol.Controller.AuthorityCapability | src/eidolon_ops/controller.py:1535-1601 | Observe, decide, adopt and render end in the pure operation, and leave the material holding what it says, refused or not; no binding is touched. |
| AuthorityProtocol.Controller.ConfirmAuthorityEstablished | src/eidolon_ops/controller.py:1603-1631 | A board is recorded only when it reports exactly the shipped lineage, and only by an install that had no binding. |
| AuthorityProtocol.Controller.TrustHostDelivery | src/eidolon_ops/controller.py:1633-1710 | The verb records a delivery only on identity, directory, Owner and signature together; a dry run gives the same answers and writes nothing. |
| AuthorityProtocol.LocalProduct.DecideInstall | src/eidolon_ops/local_product.py:1034-1078 | A machine that is its own Host decides as a product Host is decided on, with the identity it holds and the directory its material holds when none is placed. |
| AuthorityProtocol.LocalProduct.IssueOwnerDomainAssets | src/eidolon_ops/local_product.py:985-1013 | The second driver renders by the very same operation. |
| AuthorityProtocol.LocalProduct.CommitOwnerAuthority | src/eidolon_ops/local_product.py:1106-1140 | It records itself only once its Hub has established this Owner's Authority, and only if no binding was there. |
| AuthorityRuns.Report | src/eidolon_ops/hostagent/authority_state.py:70-138 | A board's report is honest: established exactly when marker and anchor are there and agree. |
| AuthorityRuns.StepKeepsSound | src/eidolon_ops/controller.py:1535-1631 | Every step of install, ship, consume, confirm, crash, converge, trust, commit, replacement and outside interference keeps the invariant of reachable worlds. |
| AuthorityRuns.DriverRendersWhatTheHostHolds | src/eidolon_ops/local_product.py:985-1013 | Whichever driver installs, it renders what the board reports, or mints at generation 1 for a board that reports nothing. |
| AuthorityRuns.InstallGoesThroughIff | src/eidolon_ops/controller.py:1535-1601 | For either driver, in every reachable world: an install gets in flight exactly when board and profile are both empty, or the board holds this Owner's Authority and is the recorded one or, without a record, proves itself, and the render goes through; a workstation asks for its own identity and the served directory, a machine that is its own Host for any identity and for the directory its material holds where none is placed. |
| AuthorityRuns.OperationIsDeliverable | src/eidolon_ops/controller.py:1586-1601 | Whatever an install renders carries a directory of this profile, for the generation it names, that names the Host. |
| AuthorityRuns.StagingRendersTheSame | src/eidolon_ops/host_layer.py:474-504 | The second render, at staging, returns in date the very directory the first one returned, and leaves it held. |
| AuthorityRuns.BindingStands | src/eidolon_ops/host_delivery.py:31-54 | Over any run without identity replacement, a recorded binding is never rewritten; the profile keeps everything but the directory it holds. |
| AuthorityRuns.BindingEndsByReplacement | src/eidolon_ops/identity_replacement.py:77-112 | A binding that is gone at the end of a run stood until some step of it, and that step replaced the identity and left none. |
| AuthorityRuns.LateConfirmation | src/eidolon_ops/controller.py:1603-1631 | An operation that outlives a replacement records the new identity exactly when its board reports what it shipped, and the board then shows the new Owner's Authority exactly when the two identities have one Owner. |
| AuthorityRuns.BindingIsProved | src/eidolon_ops/controller.py:1603-1631 | The step that records a binding saw a board of that very hardware report an Authority of this Owner; a trust step saw it serve this Owner's directory, signed by this material and naming this Host, and so on for each of the four verbs that record. |
| AuthorityRuns.BindingIsRecordedIff | src/eidolon_ops/controller.py:1603-1710 | In every reachable world without a binding, a step records one if and only if some board showed what that verb asks for, written out verb by verb. |
| AuthorityRuns.EveryBindingWasProved | src/eidolon_ops/controller.py:1603-1710 | Over any run, replacements included, every binding standing at the end was recorded at some step, for a board that showed this Owner's Authority and all that step's verb asks for then. |
| AuthorityRuns.OnlyTheBoundBoardProceeds | src/eidolon_ops/install_decision.py:154-192 | In every reachable world with a binding, an install that gets in flight is on the recorded board, as a continuation. |
| AuthorityRuns.LineageNeverChanges | src/eidolon_ops/host_layer.py:408-431 | Over every run, what a board has established never changes; what it establishes during the run is a lineage a first install minted, at generation 1. |
| AuthorityRuns.OnlyFirstInstallMints | src/eidolon_ops/owner_domain_assets.py:95-101 | Only an install of a board that reports nothing, by a profile without a binding, mints; and it mints one lineage at generation 1. |
| AuthorityRuns.StaleCapabilityIsCaught | src/eidolon_ops/controller.py:1603-1631 | If Hub consumed a capability of a crashed attempt, confirming refuses and writes nothing, and the next install renders what the board holds, as already consumed. |
| AuthorityRuns.ConfirmDelivers | src/eidolon_ops/controller.py:1603-1631 | A confirmation that records a binding leaves that board delivered, holding the lineage the operation rendered. |
| AuthorityRuns.DeliveredForGood | src/eidolon_ops/install_decision.py:154-192 | A delivered board stays delivered over every run, and from then on an install proceeds on no other board and names no other lineage. |
| AuthorityProgress.StageReached | src/eidolon_ops/release_transaction.py:742-873 | Over any run that carries an install through, with any steps in between that leave it alone, board, profile and operation are after each of its six steps what those steps alone make of them. |
| AuthorityProgress.FinishCarries | src/eidolon_ops/release_transaction.py:742-873 | The six steps alone, and each beginning of them, are such a run. |
| AuthorityProgress.DeliveredProvesIdentity | src/eidolon_ops/install_decision.py:154-192 | A delivered board that serves what it was sent is continued on, and would be adopted by a profile that lost its record. |
| AuthorityProgress.ConfirmRecords | src/eidolon_ops/controller.py:1603-1631 | Once the board reports the lineage an operation carries, confirming it records that board. |
| AuthorityProgress.FinishedInstallDelivers | src/eidolon_ops/release_transaction.py:742-873 | Any run that carries a first install of an empty board through leaves it delivered, holding the minted lineage and the shipped directory, and able to prove itself without the record. |
| AuthorityProgress.RetryProceeds | src/eidolon_ops/host_layer.py:408-431 | A board that established this Owner's Authority and holds what was shipped is proceeded on, with the lineage it holds, and adopting its directory never stops that. |
| AuthorityProgress.StaleCapabilityRecovers | src/eidolon_ops/controller.py:1535-1631 | After a stale capability made confirmation refuse, the very next install of that board is confirmed and delivers it with the lineage it established. |
| CredentialClasses.Halved | src/eidolon_ops/install_inputs.py:503-508 | Pointing a slot at its grandparent keeps every root and strictly shortens the way to it. |
| CredentialClasses.Forest.Find | src/eidolon_ops/install_inputs.py:503-508 | Finding terminates, returns the slot's root, and changes no root although it rewrites parents on the way. |
| CredentialClasses.Forest.Union | src/eidolon_ops/install_inputs.py:510-513 | Hanging one root under another merges exactly their two classes. |
| CredentialClasses.Forest.Group | src/eidolon_ops/install_inputs.py:515-521 | The known slots come out as one set per root. |
| CredentialClasses.PartitionNext | src/eidolon_ops/install_inputs.py:510-513 | Taking in one more pair merges the classes of its two slots and no others. |
| CredentialClasses.DeclaredClasses | src/eidolon_ops/install_inputs.py:483-521 | For any pair table the result is exactly the connected components of the table: two slots together if and only if a chain of pairs joins them. |
| CredentialClasses.PartnersOf | src/eidolon_ops/install_inputs.py:622-627 | The partner table lists exactly the slots a pair joins to each slot. |
| CredentialClasses.SharedGroup | src/eidolon_ops/install_inputs.py:629-636 | The worklist terminates and finds exactly the connected component of its slot. |
| CredentialClasses.GroupIsItsClass | src/eidolon_ops/install_inputs.py:483-521 | What the worklist finds from a declared slot is the one class the union-find puts it in. |
| CredentialClasses.ComponentsAreDisjoint | src/eidolon_ops/install_inputs.py:515-521 | Each declared slot is in its own component, and components that share a slot are one. |
| CredentialRepair.FillKeepsAgreement | src/eidolon_ops/install_inputs.py:642-651 | Filling a slot with its class's value, a minted one or a fixed one leaves every other class as agreed as it was. |
| CredentialRepair.FillMissing | src/eidolon_ops/install_inputs.py:638-651 | The pass stops exactly where a missing credential's class already disagrees, and names it; otherwise nothing present changed, nothing required is missing, fixed values are the contract's, each touched class holds one value, and where a class held none that value was minted for one of its slots. |
| CredentialRepair.KeySetsHoldIff | src/eidolon_ops/install_inputs.py:799-813 | After the rendered and the retired keys went and missing ones came, the key sets are the contract's exactly when each prior key was required, optional, rendered or retired. |
| CredentialRepair.ContractHolds | src/eidolon_ops/install_inputs.py:799-852 | The two loops of the contract check decide the two conditions, for any input set. |
| CredentialRepair.AgreedIsRepairable | src/eidolon_ops/install_inputs.py:642-648 | Shared values that are long and agree never stop a repair. |
| CredentialFiles.RereadExtendsIff | src/eidolon_ops/provider_inputs.py:37-77 | Writing some of the files and reading them again keeps every value that was there if and only if none in those files is wrapped in quotes. |
| CredentialFiles.RepairedIsWritableIff | src/eidolon_ops/provider_inputs.py:68-75 | A repaired file can be written exactly when no value it held is empty. |
| CredentialFiles.SharedValuesHoldIff | src/eidolon_ops/install_inputs.py:848-852 | After a repair the written files hold one long value on both sides of every pair exactly when what was kept is long and agreed once read back, and no class with a slot to fill keeps a wrapped value in a file that stays as it is. |
| CredentialFiles.SettledWhenNothingIsWrapped | src/eidolon_ops/install_inputs.py:848-852 | Without a wrapped value that condition is that the kept shared values are long and agree. |
| CredentialFiles.WrappedPairIsSplit | src/eidolon_ops/install_inputs.py:638-655 | For every long wrapped value: two files agree on it, the repair goes through, and the check refuses what it leaves. |
| CredentialFiles.CanWithdrawIff | src/eidolon_ops/install_inputs.py:714-731 | On readable files the withdrawal goes through exactly when no file that loses a rendered or a retired key keeps an empty value. |
| CredentialFiles.WithdrawalReads | src/eidolon_ops/install_inputs.py:714-731 | A withdrawal that went through leaves the files as readable as they were; they say what was there without the stale keys, less the quotes rewriting cost. |
| CredentialFiles.FileLeavesTheRest | src/eidolon_ops/install_inputs.py:714-731 | One file after a withdrawal: every key it held but the rendered and the retired ones, with its value, less one pair of quotes where a key went; and the very text where none did. |
| CredentialFiles.InputSet.Read | src/eidolon_ops/install_inputs.py:603-605 | All files are read, or one that cannot be is named. |
| CredentialFiles.InputSet.Place | src/eidolon_ops/install_inputs.py:653-655 | Changed files are written whole, and all of them exactly when none holds an unsafe entry; one that does is named and never written. |
| CredentialFiles.InputSet.WithdrawRendered | src/eidolon_ops/install_inputs.py:695-731 | File by file: only those a stale key could be in are read, only those that hold one are written; afterwards no file holds a rendered or a retired key and each holds every other key it held; exactly the keys taken out are reported; a refusal names a file that cannot be read or written. |
| CredentialFiles.InputSet.AddMissing | src/eidolon_ops/install_inputs.py:578-671 | The repair goes through exactly when all files are readable, every provider credential is usable, no touched class disagrees and, if it writes, no written file holds an empty value; the files then read as the repaired ones, and each refusal says why. |
| CredentialFiles.ReadBackExtendsIff | src/eidolon_ops/install_inputs.py:638-655 | A repair changes nothing that was there if and only if no file it writes holds a value wrapped in quotes. |
| CredentialFiles.SecondRepair | src/eidolon_ops/install_inputs.py:578-671 | A second repair has nothing to add or write, and is refused exactly when a provider's value stopped being usable by losing its quotes. |
| CredentialFiles.AddTwice | src/eidolon_ops/install_inputs.py:578-671 | The repair run twice on the files: the second run leaves them as they are and goes through exactly under that condition. |
| CredentialFiles.ShortProviderStopsTheNextRun | src/eidolon_ops/provider_inputs.py:61-65 | A wrapped provider value of at most nine characters in a written file stops every later run, for any judgement that asks for eight. |
| CredentialFiles.WithdrawThenAdd | src/eidolon_ops/install_inputs.py:578-731 | Both verbs in a row and then the contract check, on readable files: they go through exactly when no file that loses a key keeps an empty value, providers are usable, no touched class disagrees and no file to be repaired holds an empty value; the check accepts the result exactly when every prior key was required, optional, rendered or retired and the shared values settled; and what was kept is unchanged exactly when no file the repair writes holds a wrapped value. |
| ComponentContract.SelectedByFiltersIff | src/eidolon_ops/component_contract.py:218-241 | Selection keeps the wanted units and artifacts, the ports still or never served, and the inputs some kept unit or nobody requires, if and only if a port orphaned by a dropped unit comes with a change of unit ids. |
| ComponentContract.SelectionKeepsTheWanted | src/eidolon_ops/component_contract.py:218-241 | Exactly the units and artifacts stay that ask for nothing or for something offered; no port or input appears, and all state stays. |
| ComponentContract.SelectIsAHomomorphismIff | src/eidolon_ops/component_contract.py:218-241 | For every contract: selecting for one Host and then for another is selecting for what both offer, on units, ports, inputs and artifacts, if and only if neither selection orphans a port unnoticed while the other drops units. |
| ComponentContract.DeclaredOnceTells | src/eidolon_ops/component_contract.py:235-240 | Units with ids of their own are never dropped unnoticed, by a first or a second selection. |
| ComponentContract.SelectIsAHomomorphism | src/eidolon_ops/component_contract.py:218-241 | For a contract that declares each unit once, both orders of two selections are the selection for what both offer. |
| ComponentContract.SelectIsIdempotent | src/eidolon_ops/component_contract.py:218-241 | Selecting twice for one Host changes nothing, for every contract. |
| ComponentContract.SelectCommutesIff | src/eidolon_ops/component_contract.py:218-241 | For every contract the order of two selections matters to ports only, and to none exactly when each declared port goes in one order if it goes in the other. |
| ComponentContract.SurvivorsKeepWhatTheyServe | src/eidolon_ops/component_contract.py:554-591 | Every role a surviving unit serves is still a port, and an input goes exactly when only dropped units required it; a port goes exactly when only dropped units served it, if and only if the selection changes the ids whenever it orphans a port. |
| ComponentContract.SharedIdHidesADrop | src/eidolon_ops/component_contract.py:235-240 | One id declared twice, for every Host and for a capability, hides the dropped unit, and the port only it served stays. |
| ComponentContract.SharedIdDoesNotCompose | src/eidolon_ops/component_contract.py:235-240 | With another unit dropped besides, that port stays in one order of selections and goes when both are dropped at once. |
| ComponentContract.RefuseContradictions | src/eidolon_ops/component_contract.py:412-452 | The loops over one contract refuse exactly where a unit serves a port nobody declares, an input or a state names a unit that is not the contract's, or a state lies outside the paths its factory reset takes. |
| UnitGraph.OrderedMeansAcyclic | src/eidolon_ops/component_contract.py:656-685 | Where the units can be put in an order each can start in, no closed walk exists. |
| UnitGraph.CycleSearch.Walk | src/eidolon_ops/component_contract.py:672-682 | The recursive search terminates; it names a real closed walk, or settles the unit after everything it depends on and restores the path. |
| UnitGraph.RefuseCycles | src/eidolon_ops/component_contract.py:656-685 | A cycle is refused if and only if the graph has one, what is named is one, and otherwise the order of settling is a start order of all units. |
| ComponentTopology.ClaimEach | src/eidolon_ops/component_contract.py:607-613 | One component's claims are granted exactly when none is repeated or held, and are then its own. |
| ComponentTopology.ClaimAll | src/eidolon_ops/component_contract.py:522-539 | All claims under one noun are granted exactly when no key is claimed twice anywhere. |
| ComponentTopology.ClaimedOnceIff | src/eidolon_ops/component_contract.py:522-539 | All four nouns are granted exactly when no unit id, no port role, no input name and no installed path is declared twice anywhere. |
| ComponentTopology.EachClaimHasOneOwner | src/eidolon_ops/component_contract.py:522-539 | Where claims are granted, what one component claims is registered to it and claimed by no other. |
| ComponentTopology.EachFileHasOneWriter | src/eidolon_ops/component_contract.py:529-539 | Where installed files are claimed once each, two inputs whose paths have no `..` in them are two files. |
| ComponentTopology.TwoWritersOfOneFile | src/eidolon_ops/component_contract.py:529-539 | For any names: two claims that differ as text can be one file. |
| Paths.ClimbsIffUps | src/eidolon_ops/component_contract.py:442-451 | Following names leads above where it starts exactly when at some point it has gone up more often than down. |
| Paths.ReachedIff | src/eidolon_ops/component_contract.py:442-451 | Removing some roots removes what a path that one of them covers leads to exactly when the path never climbs out below that root, or goes down into a root again. |
| Paths.ClimbingPathLeaves | src/eidolon_ops/component_contract.py:442-451 | A path that climbs out of a root and goes elsewhere is covered by it and leads outside. |
| ComponentTopology.RefuseUnknownDependencies | src/eidolon_ops/component_contract.py:620-653 | A name in `requires` or `after` is refused exactly when neither a unit nor a system target has it; the refusal names a real one and says withheld exactly when it was. |
| ComponentTopology.LoadContracts | src/eidolon_ops/component_contract.py:481-502 | Loading succeeds exactly when every contract is where it belongs and consistent with itself; otherwise it says which of the two is not so. |
| ComponentTopology.DeclaredAndSilent | src/eidolon_ops/component_contract.py:481-502 | What is loaded are the contracts that are there, and silent are exactly the components without one. |
| ComponentTopology.SelectAll | src/eidolon_ops/component_contract.py:594-604 | Selecting every contract fails exactly when one asks for a capability nobody defined. |
| ComponentTopology.EdgesAreWaits | src/eidolon_ops/component_contract.py:656-670 | The graph searched for cycles has an edge from one unit to another exactly when the one names the other, a selected unit, in `requires` or in `after`. |
| ComponentTopology.WithheldAre | src/eidolon_ops/component_contract.py:594-604 | Withheld are exactly the ids of declared units whose capability the Host does not offer, each with one that such a unit asks for. |
| ComponentTopology.JoinedIff | src/eidolon_ops/component_contract.py:515-542 | The registers and the graph find a set in order exactly when everything is declared once, every name in `requires` or `after` is a selected unit or the system's, and no unit waits for itself through others. |
| ComponentTopology.OrderStarts | src/eidolon_ops/component_contract.py:656-685 | A start order of the graph starts every selected unit once, after everything it names in `requires` or `after` that is not the system's. |
| ComponentTopology.Join | src/eidolon_ops/component_contract.py:515-542 | The checks over the whole set hold exactly when everything is declared once, every name in `requires` or `after` is a selected unit or the system's, and no unit waits for itself; then a start order exists. |
| ComponentTopology.RegistersSay | src/eidolon_ops/component_contract.py:541-551 | The registers say of every selected unit whose it is and of every port role its number, and of nothing else. |
| ComponentTopology.ReadComponentContracts | src/eidolon_ops/component_contract.py:470-551 | Reading succeeds exactly when every contract is where it belongs, consistent, and asks for known capabilities, and the selected ones together are in order; every selected unit then has its component as owner, every port role its number, and a start order exists; a withheld dependency that is named is one. |
| IdentityReplacement.RenameEffect | src/eidolon_ops/identity_replacement.py:89-99 | After renames over distinct paths, each source is gone and each destination holds what the source held at first. |
| IdentityReplacement.RenameFrame | src/eidolon_ops/identity_replacement.py:89-99 | Paths no rename names are as they were. |
| IdentityReplacement.Disk.Rename | src/eidolon_ops/identity_replacement.py:90-98 | A rename moves its source or, when refused or without a source, changes nothing. |
| IdentityReplacement.Disk.Retire | src/eidolon_ops/identity_replacement.py:89-92 | Everything there is moved aside, up to the first refusal, which is the only way it fails. |
| IdentityReplacement.Disk.Publish | src/eidolon_ops/identity_replacement.py:93-99 | Everything staged is put in its place, up to the first refusal or missing thing, which are the only ways it fails. |
| IdentityReplacement.Disk.Unpublish | src/eidolon_ops/identity_replacement.py:101-102 | Taking back what was published, last first, leaves the tree as before publishing, without the spent staged things. |
| IdentityReplacement.Disk.MoveAllBack | src/eidolon_ops/identity_replacement.py:103-104 | Moving back in reverse order restores the tree exactly. |
| IdentityReplacement.Disk.Undo | src/eidolon_ops/identity_replacement.py:100-105 | Both undo loops together restore every path but spent staging. |
| IdentityReplacement.Replacement.Commit | src/eidolon_ops/identity_replacement.py:77-112 | The commit succeeds exactly when everything is staged and no rename is refused: by their paths, the inputs, the Owner material and the trust anchor are then live, what each of the four live places held is at its own retired path, the binding is gone and nothing else moved; otherwise every path but spent staging holds what it held. |
| TextLines.SplitOfWritten | src/eidolon_ops/environment.py:50-51 | Writing break-free lines and splitting again, as `splitlines` does, gives back the lines. |
| TextLines.SplitLinesIff | src/eidolon_ops/environment.py:25-47 | The lines of a text are its one cutting at the ten break characters, with CR LF as one break and no last empty line. |
| ProviderEnv.ParseProviderEnv | src/eidolon_ops/provider_inputs.py:37-58 | The loop accepts and yields exactly what the line-by-line reading does. |
| ProviderEnv.ParsedIff | src/eidolon_ops/provider_inputs.py:37-58 | A text is read as a mapping exactly when each of its lines is blank, a comment, or declares one upper-case name a value without white space or control characters, bare or in one pair of quotes, with white space around either; no name is declared twice; and the mapping is what they declare. |
| ProviderEnv.ParseOfSerialized | src/eidolon_ops/provider_inputs.py:37-77 | What is written is read back with one pair of quotes taken off each value, for every mapping that is written at all. |
| ProviderEnv.RoundTripIff | src/eidolon_ops/provider_inputs.py:37-77 | Reading inverts writing on exactly the mappings with no value wrapped in one quote pair. |
| ProviderEnv.QuotedTwice | src/eidolon_ops/provider_inputs.py:51-53 | For every name and every value wrapped in quotes: wrapped once more it reads as that value, and written so it reads as less. |
| Environment.Parse | src/eidolon_ops/environment.py:25-47 | The loop accepts and yields exactly what the line-by-line reading does. |
| Environment.ParsedIff | src/eidolon_ops/environment.py:25-47 | A text is read as a mapping exactly when each of its lines is empty or a non-empty name without `=`, an `=` and a non-empty value; no name is given twice; and the mapping is what they give. |
| Environment.Merge | src/eidolon_ops/environment.py:54-61 | The loop sets every value over what the text says; it refuses exactly an unreadable text and a value that is empty or holds a newline, a carriage return or a NUL. |
| Environment.Replace | src/eidolon_ops/environment.py:64-73 | The same, refusing exactly also a name the text does not declare. |
| Environment.ParsedIsLasting | src/eidolon_ops/environment.py:25-47 | Whatever is read has non-empty, `=`-free, break-free names and non-empty, break-free values. |
| Environment.RoundTripIff | src/eidolon_ops/environment.py:25-51 | Reading inverts writing on exactly those mappings. |
| Environment.MergeTwiceIff | src/eidolon_ops/environment.py:54-61 | Merging a and then any b into a text is merging a overridden by b, refusals included, if and only if every name and value of a fits on a line. |
| Environment.MergedReadsIff | src/eidolon_ops/environment.py:54-61 | A merged text reads as holding what was set, exactly under that condition. |
| Environment.MergingTwiceCanFail | src/eidolon_ops/environment.py:54-61 | A value with a vertical tab between two parts is merged, and nothing can be merged after it, though both at once can: for every such value. |
| Environment.SafeIsNotLasting | src/eidolon_ops/environment.py:87-89 | The safety check lets a vertical tab through, which the reader breaks lines at: a concrete case. |
| Environment.ReplaceInventsNothing | src/eidolon_ops/environment.py:64-73 | A replacement is the merge, declares no other name, and reads as what was asked if and only if every value fits on a line. |
| KnownHosts.RemainingIsAList | src/eidolon_ops/host_keys.py:209-212 | A host list that loses some names, joined again, lists exactly the others and gains no pattern. |
| KnownHosts.NamesFold | src/eidolon_ops/host_keys.py:210 | Letter case neither makes a host name nor unmakes one. |
| KnownHosts.FoldIff | src/eidolon_ops/host_keys.py:210 | Two names are one to the code exactly when they differ in ASCII letter case only. |
| KnownHosts.NoticedLine | src/eidolon_ops/host_keys.py:209-212 | A line whose rewriting is noticed, alone in a file, costs another name a key or gives somebody one. |
| KnownHosts.SpoiledLinesCanCancel | src/eidolon_ops/host_keys.py:209-212 | Two spoiled lines can make up for one another in one file, for any two names. |
| KnownHosts.HollowListSpeaksForAnother | src/eidolon_ops/host_keys.py:209-212 | A list of the alias and an empty name becomes a line that gives the field after it a key it did not have, for any two names. |
| LineWords.PiecesOfText | src/eidolon_ops/host_keys.py:200-203 | Cutting a text at every line break is cutting it at newlines and then within each line, blank lines aside. |
| LineWords.WordsOfJoin | src/eidolon_ops/host_keys.py:212 | Words joined by a separator are the words that splitting finds again. |
| KnownHostsFile.Recorded | src/eidolon_ops/host_keys.py:162-168 | The loop lists the keys of what OpenSSH prints, in order, and refuses exactly when an entry has fewer than three words, a marker, or a pattern that is not a hash. |
| KnownHostsFile.Write | src/eidolon_ops/host_keys.py:186-222 | A write is refused exactly when something OpenSSH prints for the alias has fewer than three words, a marker, or a pattern that is not a hash; otherwise each piece of the file is kept, dropped or loses the alias, and the new line is added. |
| KnownHostsFile.ShortTextReads | src/eidolon_ops/host_keys.py:209-212 | An entry written without the alias reads, for OpenSSH, as its fields with the alias off the list, on one line. |
| KnownHostsFile.TakenFromAnother | src/eidolon_ops/host_keys.py:203-212 | A piece taken because another line printed the same text is not the alias's, and taking it costs a name a key exactly when it is a hash that speaks for that name. |
| KnownHostsFile.AfterSays | src/eidolon_ops/host_keys.py:186-222 | What OpenSSH finds in the written file is what the kept pieces say, and the new key for the alias. |
| KnownHostsFile.SoundFile | src/eidolon_ops/host_keys.py:186-222 | Where every line keeps its word and no hash is taken along, all lines of a file together do, policies and refused entries included. |
| KnownHostsFile.StrayShows | src/eidolon_ops/host_keys.py:203-212 | A hash that another line prints is lost from a file of the two. |
| KnownHostsFile.WriteReplacesOneAliasIff | src/eidolon_ops/host_keys.py:186-222 | For any lines: every file made of them is rewritten so that the alias is trusted under exactly the new key and every other name under the keys it was, if and only if each line on its own keeps what it says and none prints a hash that another holds. |
| KnownHostsBreaks.WholeLineKept | src/eidolon_ops/host_keys.py:203-212 | Of a line without a break in it, what is kept is the line, nothing, or its fields with the alias off the list. |
| KnownHostsBreaks.WholeKeepsIff | src/eidolon_ops/host_keys.py:209-212 | Such a line keeps what it says exactly when its list, with the alias out, is used up, still starts a line as a list does, or names nobody and leaves a line that speaks for nobody. |
| KnownHostsBreaks.WholeLinesIff | src/eidolon_ops/host_keys.py:186-222 | So every file of such lines is rewritten as promised if and only if that holds of each matched list. |
| KnownHostsBreaks.ListedIsTrusted | src/eidolon_ops/host_keys.py:162-168 | Of such lines the code lists exactly the keys OpenSSH trusts. |
| KnownHostsBreaks.CommentKeepsIff | src/eidolon_ops/host_keys.py:200-207 | An entry with a break in its comment, on a line that is not the alias's, keeps what it says exactly when what comes after the break speaks for nobody. |
| KnownHostsBreaks.CommentBecomesALine | src/eidolon_ops/host_keys.py:200-207 | For any names, keys, comment and line break other than a newline: an entry after a break in a comment, on a line OpenSSH does not match to the alias, is trusted after the write and was not before. |
| KnownHostsBreaks.HashIsTakenAlong | src/eidolon_ops/host_keys.py:196-208 | For any such break: a hashed entry after one on the alias's line, which the file also holds on a line of its own, loses its key. |
| ResetScope.AuthorityToRemove | src/eidolon_ops/controller.py:1463-1531 | A wipe goes ahead exactly when nobody declares, or everybody does and every factory path lies under a reset root; the silent are named, and stranded are exactly the factory paths under no root. |
| ResetScope.WipeReachesIff | src/eidolon_ops/controller.py:1496-1515 | A wipe that goes ahead on a set that was read covers every declared path by name, and reaches all of them if and only if each, below a root that covers it, never climbs out or goes down into a root again. |
| ResetScope.ClimbingStateSurvives | src/eidolon_ops/component_contract.py:442-451 | For every root: a contract whose state climbs out of it is consistent and covered, and wiping the root leaves the state. |
| ResetScope.OwnersOf | src/eidolon_ops/controller.py:1436-1440 | The owner table has exactly the declared paths, each once, with the last component that named it, in the order they were first named. |
| ResetScope.SameStateIff | src/eidolon_ops/controller.py:216-225 | By their texts: an entry is the declared path, or that with `-shm`, `-wal`, `.lock` or `-journal` after it, or one of the two starts with the other and a slash. |
| ResetScope.AttributeAuthority | src/eidolon_ops/controller.py:1414-1461 | Every entry is claimed, for the last component that named the first declared path it matches, or listed as nobody's, in order and as often as it occurs, never both, and no claimable one is listed as nobody's. |
| ResetScope.AuthorityIsClaimed | src/eidolon_ops/controller.py:216-225 | Whatever a reset takes that holds a declared authority path is claimed in the report. |

## Left out

- Which of several problems is named first, and message texts. `ReadComponentContracts` claims noun by noun where the code goes contract by contract; both refuse the same sets.
- Sort orders of keys, classes and reports: the model allows any order, and iterates over sets in any.
- TLS, asyncio, timeouts, the 503 answer and the choice of the observed address (`_observed_host`): I/O. The model starts at the bytes of one direction.
- Key and certificate creation, the trust bundle and the authority payload files beside the directory: cryptography and presentation.
- The shape checks of `InstallContext.from_observation`, plan reports, and retirement of legacy authority state: they only add easy members. A plan of `authority_capability` stops before rendering.
- Mode bits, symbolic links, locks, temporary files and atomic replacement of single files: a file is there with its content or is not.
- `usable_secret` is a parameter of the repair: any predicate of value and key.
- Minted values are keyed by the whole class instead of its least slot, which names the same class.
- Provider credential comparison, fixed-path checks and rendered settings of `validate_install_input_contract`: field by field, no property across functions.
- `socket_activated` units, state coverage and schema gates of a contract: carried through without a check.
- SSH transport, git, release transactions, the CLI and console, status and diagnosis reports: orchestration around what is modelled.
- UnitGraph.CycleSearch.Walk: the source calls itself once per unit along a chain, so a chain longer than the interpreter's recursion limit raises where the model goes on.
- LanIngress.BodyLength: `int` is modelled with the interpreter's default digit limit of 4300; an interpreter started with another limit reads longer or shorter numbers.
- AuthorityProtocol.Begin: its contract says only what is in flight afterwards; what it renders is stated by RendersWhatTheHostHolds and the methods proved against it.
- AuthorityProtocol.HostLayer.ForgetHost: the deployment identity it also drops is a digest for release bookkeeping, which is not modelled.
- AuthorityProtocol.HostLayer.ObserveInstallContext: a malformed observation is refused before it is kept; the model starts from a well-formed report.
- AuthorityRuns.Report: the agent refuses to report on a database that is there without a marker; a board in that state takes no step of this protocol, so it is not modelled.
- AuthorityProgress.StageReached: staging ships what the first render returned. If another operation of the same profile changes the held directory before staging, the code ships what a second render gives then; `StagingRendersTheSame` covers the case without one.
