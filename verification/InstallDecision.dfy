/** The eight decisions, as a function of a Host's report, the profile's identity and its
    delivery binding, with the documents and names they rest on. */
module InstallDecision {
  import opened Common
  import opened OwnerDirectory

  datatype Decision =
    | FirstInstall | Continue | AdoptDelivery
    | HostIncident | ForeignAuthority | WrongBoard | AuthorityLost | IdentityUnproven
  {
    predicate Proceeds() { FirstInstall? || Continue? || AdoptDelivery? }

    predicate RecordsDelivery() { FirstInstall? || AdoptDelivery? }

    predicate HostEstablished() { Continue? || AdoptDelivery? }
  }

  /** A lineage document: the four fields a marker has, or any other object with the value
      its owner field has, when it has one. */
  datatype Document =
    | Lineage(version: int, owner: string, generation: int, stateId: string)
    | Other(ownerField: Option<string>, text: string)
  {
    function Owner(): Option<string> {
      if Lineage? then Some(owner) else ownerField
    }
  }

  datatype Hardware = Hardware(kind: string, fingerprint: string)

  /** A Host's report: the inputs of a decision that are not the profile's. */
  datatype Context = Context(
    marker: Option<Document>, anchor: Option<Document>, established: Option<Document>,
    directory: Option<File>, hardware: Hardware, identity: Option<string>)

  /** The recorded delivery binding, as reading the file gives it. */
  datatype Binding = Recorded(version: int, hostId: string, hardware: Hardware) | Garbled(text: string)

  // ---------------------------------------------------------------- names

  predicate IsHex(s: string) {
    forall i :: 0 <= i < |s| ==> '0' <= s[i] <= '9' || 'a' <= s[i] <= 'f'
  }

  const HOST_PREFIX := "ehost-"
  const HUB_PREFIX := "eidolon-hub-"
  const LOCAL := ".local"

  predicate ValidHostId(hostId: string) {
    HOST_PREFIX <= hostId && |hostId| == |HOST_PREFIX| + 20 && IsHex(hostId[|HOST_PREFIX|..])
  }

  predicate ValidHardware(hardware: Hardware) {
    hardware.kind != "" && "sha256:" <= hardware.fingerprint
      && |hardware.fingerprint| == 7 + 64 && IsHex(hardware.fingerprint[7..])
  }

  /** The routing name rendered for a public Host id. */
  function HubHostname(hostId: string): string
    requires ValidHostId(hostId)
  {
    HUB_PREFIX + hostId[|HOST_PREFIX|..] + LOCAL
  }

  /** The Host id a routing name was rendered for, when it has that form. */
  function NamedHostId(hostname: string): Option<string> {
    var n := |HUB_PREFIX|;
    if |hostname| == n + 20 + |LOCAL| && HUB_PREFIX <= hostname && hostname[n + 20..] == LOCAL
       && IsHex(hostname[n..n + 20])
    then Some(HOST_PREFIX + hostname[n..n + 20]) else None
  }

  predicate DirectoryNamesHost(directory: Option<File>, hostId: string) {
    && directory.Some? && directory.value.UriHost().Some?
    && NamedHostId(directory.value.UriHost().value) == Some(hostId)
  }

  /** A Host id is its prefix and twenty hexadecimal digits. */
  lemma HostIdForm(hostId: string)
    ensures ValidHostId(hostId) <==>
            exists digits :: |digits| == 20 && AllIn(digits, HEX_DIGITS) && hostId == "ehost-" + digits
  {
    hide IsHex, AllIn;
    if ValidHostId(hostId) {
      HexByDigit(hostId[6..]);
      assert hostId == "ehost-" + hostId[6..];
    }
    if digits :| |digits| == 20 && AllIn(digits, HEX_DIGITS) && hostId == "ehost-" + digits {
      HexByDigit(digits);
      assert hostId[6..] == digits;
    }
  }

  /** Hardware is named by a kind and a SHA-256 in hexadecimal. */
  lemma HardwareForm(hardware: Hardware)
    ensures ValidHardware(hardware) <==>
            && hardware.kind != ""
            && exists digits :: |digits| == 64 && AllIn(digits, HEX_DIGITS)
                                && hardware.fingerprint == "sha256:" + digits
  {
    hide IsHex, AllIn;
    var f := hardware.fingerprint;
    if ValidHardware(hardware) {
      HexByDigit(f[7..]);
      assert f == "sha256:" + f[7..];
    }
    if digits :| |digits| == 64 && AllIn(digits, HEX_DIGITS) && f == "sha256:" + digits {
      HexByDigit(digits);
      assert f[7..] == digits;
    }
  }

  const HEX_DIGITS := "0123456789abcdef"

  predicate AllIn(s: string, letters: string) {
    forall c :: c in s ==> c in letters
  }

  lemma HexByDigit(s: string)
    ensures IsHex(s) <==> AllIn(s, HEX_DIGITS)
  {
    forall c: char ensures c in HEX_DIGITS <==> '0' <= c <= '9' || 'a' <= c <= 'f' {
      assert |HEX_DIGITS| == 16;
      assert c in HEX_DIGITS <==> exists i :: 0 <= i < 16 && HEX_DIGITS[i] == c;
      if '0' <= c <= '9' {
        assert HEX_DIGITS[c as int - '0' as int] == c;
      } else if 'a' <= c <= 'f' {
        assert HEX_DIGITS[c as int - 'a' as int + 10] == c;
      }
    }
    assert forall i :: 0 <= i < |s| ==> s[i] in s;
    assert forall c :: c in s ==> exists i :: 0 <= i < |s| && s[i] == c;
  }

  /** A directory names a Host exactly when its own route is the name rendered for that Host. */
  lemma NamesHostIff(directory: Option<File>, hostId: string)
    requires ValidHostId(hostId)
    ensures DirectoryNamesHost(directory, hostId) <==>
            directory.Some? && directory.value.UriHost() == Some("eidolon-hub-" + hostId[6..] + ".local")
  {
    if directory.Some? && directory.value.UriHost() == Some(HubHostname(hostId)) {
      DirectoryNamesItsHost(directory.value, hostId, hostId);
    }
    if DirectoryNamesHost(directory, hostId) {
      var name := directory.value.UriHost().value;
      var n := |HUB_PREFIX|;
      assert hostId[6..] == name[n..n + 20];
      assert name == HUB_PREFIX + name[n..n + 20] + name[n + 20..];
    }
  }

  /** A directory that publishes itself at one Host's routing name names that Host and no
      other. */
  lemma DirectoryNamesItsHost(directory: File, hostId: string, asked: string)
    requires ValidHostId(hostId) && directory.UriHost() == Some(HubHostname(hostId))
    ensures DirectoryNamesHost(Some(directory), asked) <==> asked == hostId
  {
    var suffix := hostId[|HOST_PREFIX|..];
    var name := HubHostname(hostId);
    assert name[|HUB_PREFIX|..|HUB_PREFIX| + 20] == suffix && name[|HUB_PREFIX| + 20..] == LOCAL;
    assert HOST_PREFIX + suffix == hostId;
  }

  // ---------------------------------------------------------------- binding

  predicate VerifiesBinding(binding: Binding, hostId: string, hardware: Hardware) {
    && binding.Recorded? && binding.version == 1
    && ValidHostId(hostId) && ValidHardware(hardware)
    && binding.hostId == hostId && binding.hardware == hardware
  }

  // ---------------------------------------------------------------- decision

  function Decide(context: Context, owner: string, hostId: string, identity: string, binding: Option<Binding>)
    : Decision
  {
    if context.anchor.Some? && context.marker != context.anchor then HostIncident
    else if context.marker.Some? && context.anchor.None? then HostIncident
    else if context.established.Some? && context.established.value.Owner() != Some(owner) then ForeignAuthority
    else if binding.Some? then
      if !VerifiesBinding(binding.value, hostId, context.hardware) then WrongBoard
      else if context.established.None? then AuthorityLost
      else Continue
    else if context.established.None? then FirstInstall
    else if context.identity == Some(identity) && DirectoryNamesHost(context.directory, hostId) then AdoptDelivery
    else IdentityUnproven
  }

  /** An honest agent: both copies read, and established exactly when they agree. */
  predicate Honest(context: Context) {
    context.established == if context.marker.Some? && context.marker == context.anchor then context.marker else None
  }

  /** What each situation means, for any honest report: the decision is one of the eight,
      and each is found exactly when its evidence is there. */
  lemma DecisionMeans(context: Context, owner: string, hostId: string, identity: string, binding: Option<Binding>)
    requires Honest(context)
    ensures var d := Decide(context, owner, hostId, identity, binding);
            var theirs := context.marker.Some? && context.marker.value.Owner() != Some(owner);
            var here := binding == Some(Recorded(1, hostId, context.hardware))
                        && ValidHostId(hostId) && ValidHardware(context.hardware);
            var proven := context.identity == Some(identity) && DirectoryNamesHost(context.directory, hostId);
            var ours := context.marker.Some? && context.marker.value.Owner() == Some(owner);
            && (d.HostIncident? <==> context.marker != context.anchor)
            && (d.ForeignAuthority? <==> context.marker == context.anchor && theirs)
            && (d.Proceeds() ==> context.marker == context.anchor && !theirs)
            && (d.HostEstablished() ==> ours && context.established == context.marker)
            && (d.FirstInstall? <==> context.marker == context.anchor == None && binding == None)
            && (d.Continue? <==> context.marker == context.anchor && ours && here)
            && (d.AuthorityLost? <==> context.marker == context.anchor == None && here)
            && (d.AdoptDelivery? <==> context.marker == context.anchor && ours && binding == None && proven)
            && (d.IdentityUnproven? <==> context.marker == context.anchor && ours && binding == None && !proven)
            && (d.WrongBoard? <==> context.marker == context.anchor && !theirs && binding.Some? && !here)
  {
  }

  /** While a binding stands, only the board it records can be proceeded on, and never as
      an install that would record a delivery. */
  lemma BoundProfileProceedsOnItsBoardOnly(
      context: Context, owner: string, hostId: string, identity: string, binding: Binding)
    ensures var d := Decide(context, owner, hostId, identity, Some(binding));
            d.Proceeds() ==> d.Continue? && binding == Recorded(1, hostId, context.hardware)
  {
  }

  // ---------------------------------------------------------------- authority

  const OWNER_PREFIX := "owner-"
  const STATE_PREFIX := "authority-state_"

  /** The generation and state id a render is for; `owner` is set when they were read off a Host. */
  datatype HostAuthority = HostAuthority(generation: int, stateId: string, established: bool, owner: Option<string>)

  function Fresh(token: string): HostAuthority {
    HostAuthority(1, STATE_PREFIX + token, false, None)
  }

  function EstablishedFrom(lineage: Document): Option<HostAuthority> {
    if lineage.Lineage? && lineage.version == 1 && OWNER_PREFIX <= lineage.owner
       && lineage.generation >= 1 && STATE_PREFIX <= lineage.stateId
    then Some(HostAuthority(lineage.generation, lineage.stateId, true, Some(lineage.owner)))
    else None
  }

  function LineageOf(authority: HostAuthority, owner: string): Option<Document> {
    if authority.established && authority.owner != Some(owner) then None
    else Some(Lineage(1, owner, authority.generation, authority.stateId))
  }

  /** An established Authority is rendered as exactly the document the Host reported, and
      cannot be rendered for any other Owner. */
  lemma EstablishedIsRenderedExactly(lineage: Document, owner: string)
    requires EstablishedFrom(lineage).Some?
    ensures LineageOf(EstablishedFrom(lineage).value, owner)
         == if lineage.Owner() == Some(owner) then Some(lineage) else None
  {
  }

  /** What can be rendered again: a version 1 lineage with an Owner, a state and a generation. */
  predicate Renderable(lineage: Document) {
    && lineage.Lineage? && lineage.version == 1 && lineage.generation > 0
    && "owner-" <= lineage.owner && "authority-state_" <= lineage.stateId
  }

  lemma EstablishedIffRenderable(lineage: Document)
    ensures EstablishedFrom(lineage).Some? <==> Renderable(lineage)
    ensures Renderable(lineage) ==> EstablishedFrom(lineage).value.generation == lineage.generation
  {
  }

  /** The capability file a Host is sent: one an empty Hub may consume, or its tombstone. */
  datatype Capability = Pending(lineage: Document) | Consumed(lineage: Document)

  function BootstrapDocument(lineage: Document, established: bool): Capability {
    if established then Consumed(lineage) else Pending(lineage)
  }
}
