/** The device list and its file under POST, PUT and DELETE: one step, and whole runs. */
module DeviceStore {
  import opened Wrappers
  import opened Json
  import opened Devices
  import opened LinkedList

  /** The position of the first device with a uuid; the length of the list when there is none. */
  function Position(devices: seq<Device>, uuid: string): (p: nat)
    ensures p <= |devices|
    ensures p < |devices| ==> devices[p].uuid == uuid
    ensures forall i :: 0 <= i < p ==> devices[i].uuid != uuid
  {
    FirstIndex(devices, (d: Device) => d.uuid == uuid)
  }

  datatype Change = Post(device: Device) | Put(id: string, name: string) | Delete(id: string)

  /** The request finds what it is about; otherwise it is answered with an error and changes nothing. */
  predicate Effective(devices: seq<Device>, change: Change) {
    change.Post? || Position(devices, change.id) < |devices|
  }

  function Changed(devices: seq<Device>, change: Change): seq<Device>
    requires Effective(devices, change)
  {
    match change
    case Post(device) => [device] + devices
    case Put(id, name) => var p := Position(devices, id); devices[p := devices[p].(name := name)]
    case Delete(id) => Cut(devices, Position(devices, id))
  }

  /** No field of the device is refused by the encoder, and its mode is known. */
  predicate Savable(d: Device) {
    d.mode != Undefined && PassesCheck(d.secretKey) && PassesCheck(d.publicKey) && PassesCheck(d.serial)
  }

  predicate SavableFrom(devices: seq<Device>, k: nat): (all: bool)
    requires k <= |devices|
    ensures all <==> forall i :: k <= i < |devices| ==> Savable(devices[i])
    decreases |devices| - k
  {
    k < |devices| ==> Savable(devices[k]) && SavableFrom(devices, k + 1)
  }

  /** The array that a save writes; nothing when it meets a device that it cannot save. */
  function Saved(devices: seq<Device>): Option<seq<Json>> {
    if SavableFrom(devices, 0) then Some(SavedArray(devices)) else None
  }

  /** The fields are encoded in this order until one is refused; none that is encoded spills. */
  predicate StaysInside(d: Device) {
    && !Spills(d.secretKey)
    && (PassesCheck(d.secretKey) ==> !Spills(d.publicKey) && (PassesCheck(d.publicKey) ==> !Spills(d.serial)))
  }

  /** From device k on the devices are encoded in list order until one cannot be saved; none of them spills. */
  predicate StaysFrom(devices: seq<Device>, k: nat)
    requires k <= |devices|
    decreases |devices| - k
  {
    k < |devices| ==> StaysInside(devices[k]) && (Savable(devices[k]) ==> StaysFrom(devices, k + 1))
  }

  /** The save keeps to its buffers. */
  predicate SaveStaysInside(devices: seq<Device>) {
    StaysFrom(devices, 0)
  }

  lemma SavedNext(devices: seq<Device>, k: nat, elements: seq<Json>, element: Json)
    requires k < |devices| && ModesKnown(devices)
    requires elements == SavedArray(devices)[..k] && element == SavedEntry(devices[k])
    ensures elements + [element] == SavedArray(devices)[..k + 1]
  {
  }

  lemma {:induction false} FitFrom(devices: seq<Device>, k: nat)
    requires AllWellFormed(devices) && k <= |devices|
    ensures (forall i :: k <= i < |devices| ==> Fits(devices[i])) <==> SavableFrom(devices, k) && StaysFrom(devices, k)
    decreases |devices| - k
  {
    if k < |devices| {
      FitFrom(devices, k + 1);
      assert WellFormed(devices[k]);
      assert Fits(devices[k]) <==> Savable(devices[k]) && StaysInside(devices[k]);
    }
  }

  /** No field is above the 768 bytes that the encoder takes. */
  predicate Encodable(d: Device) {
    |d.secretKey| <= 768 && |d.publicKey| <= 768 && |d.serial| <= 768
  }

  /** The first field with more than 765 bytes, in the order of the save, is one that the encoder still takes. */
  predicate FillsBuffer(d: Device) {
    if |d.secretKey| > 765 then |d.secretKey| <= 768
    else if |d.publicKey| > 765 then |d.publicKey| <= 768
    else 765 < |d.serial| <= 768
  }

  lemma FieldSizes(d: Device)
    requires d.mode != Undefined
    ensures Savable(d) <==> Encodable(d)
    ensures StaysInside(d) <==> !FillsBuffer(d)
  {
    FitsExactly(d.secretKey);
    FitsExactly(d.publicKey);
    FitsExactly(d.serial);
  }

  /** A save is refused exactly when some field of a device has more than 768 bytes. */
  lemma SavedExactly(devices: seq<Device>)
    requires AllWellFormed(devices)
    ensures Saved(devices).Some? <==> forall d :: d in devices ==> Encodable(d)
  {
    forall i | 0 <= i < |devices|
      ensures Savable(devices[i]) <==> Encodable(devices[i])
    {
      assert WellFormed(devices[i]);
      FieldSizes(devices[i]);
    }
  }

  lemma {:induction false} LeavesFrom(devices: seq<Device>, k: nat)
    requires AllWellFormed(devices) && k <= |devices|
    ensures !StaysFrom(devices, k) <==> exists j :: k <= j < |devices| && FillsBuffer(devices[j])
                                                    && forall i :: k <= i < j ==> Encodable(devices[i])
    decreases |devices| - k
  {
    if k < |devices| {
      assert WellFormed(devices[k]);
      FieldSizes(devices[k]);
      LeavesFrom(devices, k + 1);
    }
  }

  /** A save leaves its buffers exactly when a device fills one, and no device before it makes the save give up. */
  lemma SaveLeavesExactly(devices: seq<Device>)
    requires AllWellFormed(devices)
    ensures !SaveStaysInside(devices) <==> exists j :: 0 <= j < |devices| && FillsBuffer(devices[j])
                                                       && forall i :: 0 <= i < j ==> Encodable(devices[i])
  {
    LeavesFrom(devices, 0);
  }

  /** Devices that fit are saved without leaving a buffer, and only they are. */
  lemma FitExactlyWhenSaved(devices: seq<Device>)
    requires AllWellFormed(devices)
    ensures AllFit(devices) <==> Saved(devices).Some? && SaveStaysInside(devices)
  {
    FitFrom(devices, 0);
  }

  /**
   * The list in memory, the elements of the database file, when there is one, whether one is configured, and
   * whether the program has kept to its buffers: once it has not, the file may hold anything.
   */
  datatype Store = Store(devices: seq<Device>, file: Option<seq<Json>>, configured: bool, intact: bool)

  /** A failed save is logged and leaves the file as it was. */
  function Step(s: Store, change: Change): Store {
    if !Effective(s.devices, change) then s
    else
      var devices := Changed(s.devices, change);
      Store(devices, if s.configured && Saved(devices).Some? then Saved(devices) else s.file, s.configured,
            s.intact && (s.configured ==> SaveStaysInside(devices)))
  }

  function Run(s: Store, changes: seq<Change>): Store
    decreases |changes|
  {
    if changes == [] then s else Run(Step(s, changes[0]), changes[1..])
  }

  /** A store is as expected, up to the file when buffers were left. */
  predicate Agrees(s: Store, expected: Store) {
    && s.devices == expected.devices && s.configured == expected.configured && s.intact == expected.intact
    && (expected.intact ==> s.file == expected.file)
  }

  /** What loading the file gives; no file loads as no devices. */
  ghost function Reloaded(s: Store): seq<Device> {
    if s.file.None? then [] else Loaded(s.file.value)
  }

  // ---- Invariants over every run -------------------------------------------------------------------------

  ghost predicate DistinctUuids(devices: seq<Device>) {
    forall i, j :: 0 <= i < j < |devices| ==> devices[i].uuid != devices[j].uuid
  }

  ghost predicate DistinctSerials(devices: seq<Device>) {
    forall i, j :: 0 <= i < j < |devices| && devices[i].serial != [] ==> devices[i].serial != devices[j].serial
  }

  ghost predicate Sound(devices: seq<Device>) {
    AllWellFormed(devices) && DistinctUuids(devices) && DistinctSerials(devices)
  }

  /** What a POST may put in the list: see Credentials.NewDevice for why it is so. */
  ghost predicate Admissible(devices: seq<Device>, change: Change) {
    change.Post? ==>
      && WellFormed(change.device)
      && (forall i :: 0 <= i < |devices| ==> devices[i].uuid != change.device.uuid)
      && (change.device.serial != [] ==> forall i :: 0 <= i < |devices| ==> devices[i].serial != change.device.serial)
  }

  ghost predicate AdmissibleRun(s: Store, changes: seq<Change>)
    decreases |changes|
  {
    changes == [] || (Admissible(s.devices, changes[0]) && AdmissibleRun(Step(s, changes[0]), changes[1..]))
  }

  lemma StepKeepsSound(s: Store, change: Change)
    requires Sound(s.devices) && Admissible(s.devices, change)
    ensures Sound(Step(s, change).devices)
  {
  }

  lemma {:induction false} RunKeepsSound(s: Store, changes: seq<Change>)
    requires Sound(s.devices) && AdmissibleRun(s, changes)
    ensures Sound(Run(s, changes).devices)
    decreases |changes|
  {
    if changes != [] {
      StepKeepsSound(s, changes[0]);
      RunKeepsSound(Step(s, changes[0]), changes[1..]);
    }
  }

  // ---- Persistence: of every list that loads, whether or not its uuids are distinct ---------------------

  predicate FormedPost(change: Change) {
    change.Post? ==> WellFormed(change.device)
  }

  ghost predicate FormedPosts(changes: seq<Change>) {
    forall c :: c in changes ==> FormedPost(c)
  }

  ghost predicate FittingPosts(changes: seq<Change>) {
    forall c :: c in changes && c.Post? ==> Fits(c.device)
  }

  /** A restart would bring back exactly these devices, in the same or in the reversed order. */
  ghost predicate ReloadsAs(s: Store, devices: seq<Device>) {
    Reloaded(s) == devices || Reloaded(s) == Reverse(devices)
  }

  ghost predicate Persistent(s: Store) {
    s.configured && ReloadsAs(s, s.devices)
  }

  lemma StepKeepsWellFormed(s: Store, change: Change)
    requires AllWellFormed(s.devices) && FormedPost(change)
    ensures AllWellFormed(Step(s, change).devices)
  {
  }

  lemma StepKeepsPersistent(s: Store, change: Change)
    requires AllWellFormed(s.devices) && AllFit(s.devices) && Persistent(s)
    requires FormedPost(change) && (change.Post? ==> Fits(change.device))
    ensures AllFit(Step(s, change).devices) && Persistent(Step(s, change)) && Step(s, change).intact == s.intact
  {
    if Effective(s.devices, change) {
      var devices, t := Changed(s.devices, change), Step(s, change);
      StepKeepsWellFormed(s, change);
      ChangedFits(s.devices, change);
      FitExactlyWhenSaved(devices);
      SaveThenLoad(devices);
      assert t.file == Some(SavedArray(devices)) && Reloaded(t) == Reverse(devices);
    }
  }

  lemma ChangedFits(devices: seq<Device>, change: Change)
    requires AllFit(devices) && Effective(devices, change) && (change.Post? ==> Fits(change.device))
    ensures AllFit(Changed(devices, change))
  {
    if change.Put? {
      assert Fits(devices[Position(devices, change.id)].(name := change.name));
    }
  }

  /** At every moment of every run, loading the file again gives the devices in memory. */
  lemma {:induction false} RunKeepsPersistent(s: Store, changes: seq<Change>)
    requires AllWellFormed(s.devices) && AllFit(s.devices) && Persistent(s)
    requires FormedPosts(changes) && FittingPosts(changes)
    ensures AllFit(Run(s, changes).devices) && Persistent(Run(s, changes)) && Run(s, changes).intact == s.intact
    decreases |changes|
  {
    if changes != [] {
      StepKeepsWellFormed(s, changes[0]);
      StepKeepsPersistent(s, changes[0]);
      RunKeepsPersistent(Step(s, changes[0]), changes[1..]);
    }
  }

  /** The same from the start of the program: load a file, serve requests, restart. */
  lemma RestartRestores(file: seq<Json>, changes: seq<Change>)
    requires AllFit(Loaded(file)) && FormedPosts(changes) && FittingPosts(changes)
    ensures var s := Run(Store(Loaded(file), Some(file), true, true), changes);
            s.intact && ReloadsAs(s, s.devices)
  {
    LoadedIsWellFormed(file);
    RunKeepsPersistent(Store(Loaded(file), Some(file), true, true), changes);
  }

  /** Without a configured file nothing is ever written. */
  lemma {:induction false} UnconfiguredRun(s: Store, changes: seq<Change>)
    requires !s.configured
    ensures Run(s, changes).file == s.file && Run(s, changes).intact == s.intact
    decreases |changes|
  {
    if changes != [] {
      UnconfiguredRun(Step(s, changes[0]), changes[1..]);
    }
  }

  // ---- When the file falls behind ------------------------------------------------------------------------

  /** The change is visible in the list: it is not the renaming of a device to the name it has. */
  ghost predicate Visible(devices: seq<Device>, change: Change) {
    Effective(devices, change) && (change.Put? ==> devices[Position(devices, change.id)].name != change.name)
  }

  lemma {:induction false} ReverseMultiset(devices: seq<Device>)
    ensures multiset(Reverse(devices)) == multiset(devices)
  {
    if devices != [] {
      ReverseMultiset(devices[1..]);
      assert devices == [devices[0]] + devices[1..];
    }
  }

  lemma VisibleChangeIsNoReordering(devices: seq<Device>, change: Change, other: seq<Device>)
    requires Visible(devices, change)
    requires other == devices || other == Reverse(devices)
    ensures other != Changed(devices, change) && other != Reverse(Changed(devices, change))
  {
    var after := Changed(devices, change);
    if change.Put? {
      var d := devices[Position(devices, change.id)];
      ReverseMultiset(devices);
      ReverseMultiset(after);
      assert multiset(after)[d] == multiset(devices)[d] - 1;
    }
  }

  /**
   * When the save keeps to its buffers, a visible change survives a restart if and only if every device then
   * fits them; and it keeps to them if and only if no field that it encodes fills one.
   */
  lemma PersistentExactlyWhenAllFit(s: Store, change: Change)
    requires AllWellFormed(s.devices) && Persistent(s) && s.intact
    requires Visible(s.devices, change) && FormedPost(change)
    ensures Step(s, change).intact <==> SaveStaysInside(Changed(s.devices, change))
    ensures Step(s, change).intact ==> (Persistent(Step(s, change)) <==> AllFit(Changed(s.devices, change)))
  {
    var devices, t := Changed(s.devices, change), Step(s, change);
    StepKeepsWellFormed(s, change);
    FitExactlyWhenSaved(devices);
    if AllFit(devices) {
      SaveThenLoad(devices);
      assert Reloaded(t) == Reverse(devices);
    } else if t.intact {
      assert Reloaded(t) == Reloaded(s);
      VisibleChangeIsNoReordering(s.devices, change, Reloaded(s));
    }
  }

  /** The list after the last effective change that left only devices that fit; `last` when there is none. */
  function LastFitting(s: Store, changes: seq<Change>, last: seq<Device>): seq<Device>
    decreases |changes|
  {
    if changes == [] then last
    else
      var t := Step(s, changes[0]);
      LastFitting(t, changes[1..], if Effective(s.devices, changes[0]) && AllFit(t.devices) then t.devices else last)
  }

  lemma {:induction false} IntactBefore(s: Store, changes: seq<Change>)
    requires Run(s, changes).intact
    ensures s.intact
    decreases |changes|
  {
    if changes != [] {
      IntactBefore(Step(s, changes[0]), changes[1..]);
    }
  }

  lemma StepReloads(s: Store, change: Change, last: seq<Device>)
    requires s.configured && AllWellFormed(s.devices) && FormedPost(change)
    requires ReloadsAs(s, last) && Step(s, change).intact
    ensures var t := Step(s, change);
            ReloadsAs(t, if Effective(s.devices, change) && AllFit(t.devices) then t.devices else last)
  {
    if Effective(s.devices, change) {
      StepKeepsWellFormed(s, change);
      FitExactlyWhenSaved(Changed(s.devices, change));
      if AllFit(Changed(s.devices, change)) {
        SaveThenLoad(Changed(s.devices, change));
      }
    }
  }

  /** Over every run that keeps to its buffers: what a restart brings back, whether or not the devices fit. */
  lemma {:induction false} RestartGivesLastFitting(s: Store, changes: seq<Change>, last: seq<Device>)
    requires s.configured && AllWellFormed(s.devices) && FormedPosts(changes)
    requires ReloadsAs(s, last) && Run(s, changes).intact
    ensures ReloadsAs(Run(s, changes), LastFitting(s, changes, last))
    decreases |changes|
  {
    if changes != [] {
      var t := Step(s, changes[0]);
      IntactBefore(t, changes[1..]);
      StepKeepsWellFormed(s, changes[0]);
      StepReloads(s, changes[0], last);
      var next := if Effective(s.devices, changes[0]) && AllFit(t.devices) then t.devices else last;
      RestartGivesLastFitting(t, changes[1..], next);
    }
  }

  /** A PSK device of the file with a secret of n bytes, and the device that is posted next. */
  function OneSecret(n: nat): Device {
    Device("a", "a", Psk, [1], seq(n, i => 1), [])
  }

  const NEXT: Device := Device("b", "b", NoCredentials, [], [], [])

  lemma OneSecretLoads(n: nat)
    requires 0 < n <= CREDENTIALS_MAX_SIZE
    ensures var s := Store([OneSecret(n)], Some([SavedEntry(OneSecret(n))]), true, true);
            AllWellFormed(s.devices) && Reloaded(s) == s.devices
  {
    SavedEntryLoads(OneSecret(n));
    LoadableOne(SavedEntry(OneSecret(n)));
  }

  lemma SecretIsSaved(n: nat)
    ensures var d := OneSecret(n);
            (Savable(d) <==> n <= 768) && (StaysInside(d) <==> !(766 <= n <= 768)) && (Fits(d) <==> n <= 765)
  {
    FitsExactly(OneSecret(n).secretKey);
    FitsExactly([]);
    FitsExactly([1]);
  }

  lemma NextIsSaved()
    ensures Savable(NEXT) && StaysInside(NEXT) && Fits(NEXT)
  {
    FitsExactly([]);
  }

  lemma NextAndSecret(n: nat)
    ensures var devices := [NEXT, OneSecret(n)];
            && (Saved(devices).Some? <==> n <= 768) && (SaveStaysInside(devices) <==> !(766 <= n <= 768))
            && (AllFit(devices) <==> n <= 765)
  {
    var devices := [NEXT, OneSecret(n)];
    SecretIsSaved(n);
    NextIsSaved();
    assert devices[0] == NEXT && devices[1] == OneSecret(n);
    assert StaysFrom(devices, 2);
    assert StaysFrom(devices, 1) <==> StaysInside(devices[1]);
    assert StaysFrom(devices, 0) <==> StaysFrom(devices, 1);
  }

  /** An entry can be too large for the save and yet load: then the next device posted is lost by a restart. */
  lemma OversizedEntryBlocksTheFile(n: nat)
    requires 768 < n <= CREDENTIALS_MAX_SIZE
    ensures var s := Store([OneSecret(n)], Some([SavedEntry(OneSecret(n))]), true, true);
            && AllWellFormed(s.devices) && Reloaded(s) == s.devices
            && Step(s, Post(NEXT)).intact && !Persistent(Step(s, Post(NEXT)))
  {
    var s := Store([OneSecret(n)], Some([SavedEntry(OneSecret(n))]), true, true);
    assert Changed(s.devices, Post(NEXT)) == [NEXT, OneSecret(n)];
    NextAndSecret(n);
    OneSecretLoads(n);
    PersistentExactlyWhenAllFit(s, Post(NEXT));
  }

  /** An entry can load and then fill a buffer of the save: the encoder reports success and leaves the buffer. */
  lemma FullFieldLeavesTheBuffer(n: nat)
    requires 766 <= n <= 768
    ensures var s := Store([OneSecret(n)], Some([SavedEntry(OneSecret(n))]), true, true);
            && AllWellFormed(s.devices) && Reloaded(s) == s.devices
            && Saved(Changed(s.devices, Post(NEXT))).Some? && !Step(s, Post(NEXT)).intact
  {
    var s := Store([OneSecret(n)], Some([SavedEntry(OneSecret(n))]), true, true);
    assert Changed(s.devices, Post(NEXT)) == [NEXT, OneSecret(n)];
    NextAndSecret(n);
    assert !Step(s, Post(NEXT)).intact;
    OneSecretLoads(n);
  }

  // ---- The list as a table from uuids --------------------------------------------------------------------

  function Lookup(devices: seq<Device>, uuid: string): Option<Device> {
    var p := Position(devices, uuid);
    if p < |devices| then Some(devices[p]) else None
  }

  lemma PositionIs(devices: seq<Device>, p: nat)
    requires DistinctUuids(devices) && p < |devices|
    ensures Position(devices, devices[p].uuid) == p
  {
  }

  lemma PositionIsNone(devices: seq<Device>, uuid: string)
    requires forall i :: 0 <= i < |devices| ==> devices[i].uuid != uuid
    ensures Position(devices, uuid) == |devices|
  {
  }

  lemma LookupAfterPost(devices: seq<Device>, d: Device, uuid: string)
    ensures Lookup([d] + devices, uuid) == if uuid == d.uuid then Some(d) else Lookup(devices, uuid)
  {
    assert ([d] + devices)[1..] == devices;
  }

  lemma LookupAfterPut(devices: seq<Device>, p: nat, name: string, uuid: string)
    requires DistinctUuids(devices) && p < |devices|
    ensures Lookup(devices[p := devices[p].(name := name)], uuid)
         == if uuid == devices[p].uuid then Some(devices[p].(name := name)) else Lookup(devices, uuid)
  {
    var after, q := devices[p := devices[p].(name := name)], Position(devices, uuid);
    if q < |devices| {
      PositionIs(after, q);
      PositionIs(devices, p);
    } else {
      PositionIsNone(after, uuid);
    }
  }

  lemma LookupAfterDelete(devices: seq<Device>, p: nat, uuid: string)
    requires DistinctUuids(devices) && p < |devices|
    ensures Lookup(Cut(devices, p), uuid) == if uuid == devices[p].uuid then None else Lookup(devices, uuid)
  {
    var after, q := Cut(devices, p), Position(devices, uuid);
    if uuid == devices[p].uuid || q == |devices| {
      PositionIsNone(after, uuid);
    } else {
      PositionIs(after, if q < p then q else q - 1);
    }
  }

  /** A request changes what is known about its own uuid and about no other. */
  lemma LookupAfter(devices: seq<Device>, change: Change, uuid: string)
    requires DistinctUuids(devices) && Effective(devices, change) && Admissible(devices, change)
    ensures Lookup(Changed(devices, change), uuid)
         == match change
            case Post(d) => if uuid == d.uuid then Some(d) else Lookup(devices, uuid)
            case Put(id, name) =>
              if uuid == id then Some(Lookup(devices, id).value.(name := name)) else Lookup(devices, uuid)
            case Delete(id) => if uuid == id then None else Lookup(devices, uuid)
  {
    match change
    case Post(d) => LookupAfterPost(devices, d, uuid);
    case Put(id, name) => LookupAfterPut(devices, Position(devices, id), name, uuid);
    case Delete(id) => LookupAfterDelete(devices, Position(devices, id), uuid);
  }

  /** The first device with a uuid stays so under requests about other uuids, also in a list with duplicates. */
  lemma OthersStay(devices: seq<Device>, change: Change, uuid: string)
    requires Effective(devices, change) && !About(change, uuid)
    ensures Lookup(Changed(devices, change), uuid) == Lookup(devices, uuid)
  {
    match change
    case Post(d) => LookupAfterPost(devices, d, uuid);
    case Put(id, name) => OthersStayPut(devices, Position(devices, id), name, uuid);
    case Delete(id) => OthersStayCut(devices, Position(devices, id), uuid);
  }

  lemma OthersStayPut(devices: seq<Device>, p: nat, name: string, uuid: string)
    requires p < |devices| && devices[p].uuid != uuid
    ensures Lookup(devices[p := devices[p].(name := name)], uuid) == Lookup(devices, uuid)
  {
    FirstAt(devices[p := devices[p].(name := name)], uuid, Position(devices, uuid));
  }

  lemma OthersStayCut(devices: seq<Device>, p: nat, uuid: string)
    requires p < |devices| && devices[p].uuid != uuid
    ensures Lookup(Cut(devices, p), uuid) == Lookup(devices, uuid)
  {
    var q := Position(devices, uuid);
    FirstAt(Cut(devices, p), uuid, if p < q then q - 1 else q);
  }

  lemma FirstAt(devices: seq<Device>, uuid: string, q: nat)
    requires q <= |devices| && (forall i :: 0 <= i < q ==> devices[i].uuid != uuid)
    requires q < |devices| ==> devices[q].uuid == uuid
    ensures Position(devices, uuid) == q
  {
  }

  lemma RenamedIsFound(devices: seq<Device>, id: string, name: string)
    requires Position(devices, id) < |devices|
    ensures Lookup(devices, id).Some?
    ensures Lookup(Changed(devices, Put(id, name)), id) == Some(Lookup(devices, id).value.(name := name))
  {
    FirstAt(Changed(devices, Put(id, name)), id, Position(devices, id));
  }

  /** One list is the other with a device put in at position k. */
  predicate IsWith(with: seq<Device>, without: seq<Device>, d: Device, k: nat) {
    k <= |without| && with == without[..k] + [d] + without[k..]
  }

  predicate About(change: Change, uuid: string) {
    (if change.Post? then change.device.uuid else change.id) == uuid
  }

  lemma ElementWith(with: seq<Device>, without: seq<Device>, d: Device, k: nat, i: nat)
    requires IsWith(with, without, d, k) && i < |without|
    ensures |with| == |without| + 1 && with[if i < k then i else i + 1] == without[i]
  {
  }

  lemma CutOut(with: seq<Device>, without: seq<Device>, d: Device, k: nat)
    requires IsWith(with, without, d, k)
    ensures |with| == |without| + 1 && with[k] == d && Cut(with, k) == without
  {
  }

  lemma PositionWith(with: seq<Device>, without: seq<Device>, d: Device, k: nat, uuid: string)
    requires DistinctUuids(with) && IsWith(with, without, d, k) && uuid != d.uuid
    ensures |with| == |without| + 1
    ensures var p := Position(without, uuid); Position(with, uuid) == if p < k then p else p + 1
  {
    var p := Position(without, uuid);
    if p < |without| {
      ElementWith(with, without, d, k, p);
      PositionIs(with, if p < k then p else p + 1);
    } else {
      AbsentWith(with, without, d, k, uuid);
      PositionIsNone(with, uuid);
    }
  }

  lemma AbsentWith(with: seq<Device>, without: seq<Device>, d: Device, k: nat, uuid: string)
    requires IsWith(with, without, d, k) && uuid != d.uuid
    requires forall i :: 0 <= i < |without| ==> without[i].uuid != uuid
    ensures forall i :: 0 <= i < |with| ==> with[i].uuid != uuid
  {
    forall i | 0 <= i < |with|
      ensures with[i].uuid != uuid
    {
      assert i == k || with[i] == without[if i < k then i else i - 1];
    }
  }

  lemma PostWith(with: seq<Device>, without: seq<Device>, d: Device, k: nat, x: Device)
    requires IsWith(with, without, d, k)
    ensures IsWith([x] + with, [x] + without, d, k + 1)
  {
  }

  lemma PutWith(with: seq<Device>, without: seq<Device>, d: Device, k: nat, p: nat, x: Device)
    requires IsWith(with, without, d, k) && p < |without|
    ensures IsWith(with[if p < k then p else p + 1 := x], without[p := x], d, k)
  {
  }

  lemma CutWith(with: seq<Device>, without: seq<Device>, d: Device, k: nat, p: nat)
    requires IsWith(with, without, d, k) && p < |without|
    ensures IsWith(Cut(with, if p < k then p else p + 1), Cut(without, p), d, if p < k then k - 1 else k)
  {
    var next := if p < k then k - 1 else k;
    assert Cut(with, if p < k then p else p + 1) == Cut(without, p)[..next] + [d] + Cut(without, p)[next..];
  }

  /** The same device is changed or removed in both lists. */
  lemma ChangeWith(with: seq<Device>, without: seq<Device>, d: Device, k: nat, change: Change)
    requires DistinctUuids(with) && IsWith(with, without, d, k) && !change.Post? && change.id != d.uuid
    ensures Effective(with, change) == Effective(without, change)
    ensures Effective(with, change) ==>
              var p := Position(without, change.id);
              IsWith(Changed(with, change), Changed(without, change), d, if change.Delete? && p < k then k - 1 else k)
  {
    PositionWith(with, without, d, k, change.id);
    var p := Position(without, change.id);
    if p < |without| {
      ElementWith(with, without, d, k, p);
      if change.Put? {
        PutWith(with, without, d, k, p, without[p].(name := change.name));
      } else {
        CutWith(with, without, d, k, p);
      }
    }
  }

  /** A request about another device does the same to both lists. */
  lemma StepWith(with: seq<Device>, without: seq<Device>, d: Device, k: nat, change: Change) returns (next: nat)
    requires DistinctUuids(with) && IsWith(with, without, d, k) && !About(change, d.uuid)
    ensures Effective(with, change) == Effective(without, change)
    ensures if Effective(with, change) then IsWith(Changed(with, change), Changed(without, change), d, next)
            else next == k
  {
    next := k;
    if change.Post? {
      PostWith(with, without, d, k, change.device);
      next := k + 1;
    } else {
      ChangeWith(with, without, d, k, change);
      next := if change.Delete? && Effective(with, change) && Position(without, change.id) < k then k - 1 else k;
    }
  }

  lemma {:induction false} RunWith(s: Store, t: Store, d: Device, k: nat, changes: seq<Change>)
    requires Sound(t.devices) && IsWith(t.devices, s.devices, d, k) && AdmissibleRun(t, changes)
    requires forall c :: c in changes ==> !About(c, d.uuid)
    ensures Run(t, changes + [Delete(d.uuid)]).devices == Run(s, changes).devices
    decreases |changes|
  {
    var all := changes + [Delete(d.uuid)];
    if changes == [] {
      CutOut(t.devices, s.devices, d, k);
      PositionIs(t.devices, k);
      assert all[1..] == [];
    } else {
      var next := StepWith(t.devices, s.devices, d, k, changes[0]);
      StepKeepsSound(t, changes[0]);
      RunWith(Step(s, changes[0]), Step(t, changes[0]), d, next, changes[1..]);
      assert all[1..] == changes[1..] + [Delete(d.uuid)];
    }
  }

  /** DELETE undoes POST: with any requests about other devices in between, the device leaves no trace in the list. */
  lemma DeletedPostLeavesNoTrace(s: Store, d: Device, changes: seq<Change>)
    requires Sound(s.devices) && AdmissibleRun(s, [Post(d)] + changes)
    requires forall c :: c in changes ==> !About(c, d.uuid)
    ensures Run(s, [Post(d)] + changes + [Delete(d.uuid)]).devices == Run(s, changes).devices
  {
    var all := [Post(d)] + changes + [Delete(d.uuid)];
    assert ([Post(d)] + changes)[1..] == changes;
    assert all[1..] == changes + [Delete(d.uuid)] && all[0] == Post(d);
    StepKeepsSound(s, Post(d));
    assert IsWith([d] + s.devices, s.devices, d, 0);
    RunWith(s, Step(s, Post(d)), d, 0, changes);
  }
}
