/**
 * The identifier of a session is a pointer to the uuid string inside a device entry. DELETE frees that string
 * while the session stays open, and its block may get any other string: the uuid or the name of a later POST, the
 * name of a later PUT, or a text of some other part of the program. Here the strings are in blocks of a memory,
 * and reading through the pointer is told apart from the uuid that was bound.
 */
module IdentifierPointers {
  import opened Wrappers
  import opened Devices
  import opened DeviceStore
  import opened LinkedList
  import Authentication

  /** An entry, and the blocks of its uuid string and its name string. */
  datatype Placed = Placed(device: Device, uuidBlock: nat, nameBlock: nat)

  /** The device list, and what stands in every block that was ever written. */
  datatype Heap = Heap(list: seq<Placed>, memory: map<nat, string>)

  /**
   * A request, with the blocks that strdup returns for the uuid of a POST and for the name of a POST or PUT; or
   * a text that any other part of the program writes into a block of its own.
   */
  datatype Event = Request(change: Change, uuidBlock: nat, nameBlock: nat) | Elsewhere(block: nat, text: string)

  function DevicesIn(list: seq<Placed>): (devices: seq<Device>)
    ensures |devices| == |list|
    ensures forall i :: 0 <= i < |list| ==> devices[i] == list[i].device
  {
    seq(|list|, i requires 0 <= i < |list| => list[i].device)
  }

  predicate Uses(x: Placed, block: nat) {
    x.uuidBlock == block || x.nameBlock == block
  }

  /** A block that a listed entry uses, and that no allocation returns therefore. */
  predicate Live(list: seq<Placed>, block: nat) {
    exists i :: 0 <= i < |list| && Uses(list[i], block)
  }

  ghost predicate Enabled(h: Heap, e: Event) {
    match e
    case Request(change, uuidBlock, nameBlock) =>
      && (!change.Delete? ==> !Live(h.list, nameBlock))
      && (change.Post? ==> !Live(h.list, uuidBlock) && uuidBlock != nameBlock)
    case Elsewhere(block, _) => !Live(h.list, block)
  }

  function Listed(h: Heap, e: Event): seq<Placed>
    requires e.Request? && Effective(DevicesIn(h.list), e.change)
  {
    match e.change
    case Post(device) => [Placed(device, e.uuidBlock, e.nameBlock)] + h.list
    case Put(id, name) =>
      var p := Position(DevicesIn(h.list), id);
      h.list[p := Placed(h.list[p].device.(name := name), h.list[p].uuidBlock, e.nameBlock)]
    case Delete(id) => Cut(h.list, Position(DevicesIn(h.list), id))
  }

  /** The blocks that an event writes, and the texts. A DELETE leaves the strings in the blocks it frees. */
  function Written(h: Heap, e: Event): map<nat, string> {
    match e
    case Elsewhere(block, text) => map[block := text]
    case Request(change, uuidBlock, nameBlock) =>
      if !Effective(DevicesIn(h.list), change) then map[]
      else
        match change
        case Post(device) => map[nameBlock := device.name, uuidBlock := device.uuid]
        case Put(_, name) => map[nameBlock := name]
        case Delete(_) => map[]
  }

  function Step(h: Heap, e: Event): Heap {
    var list := if e.Request? && Effective(DevicesIn(h.list), e.change) then Listed(h, e) else h.list;
    Heap(list, h.memory + Written(h, e))
  }

  function Run(h: Heap, events: seq<Event>): Heap
    decreases |events|
  {
    if events == [] then h else Run(Step(h, events[0]), events[1..])
  }

  ghost predicate EnabledAll(h: Heap, events: seq<Event>)
    decreases |events|
  {
    events == [] || (Enabled(h, events[0]) && EnabledAll(Step(h, events[0]), events[1..]))
  }

  // ---- The strings of the listed entries -----------------------------------------------------------------

  predicate Holds(memory: map<nat, string>, block: nat, text: string) {
    block in memory && memory[block] == text
  }

  /** The strings of an entry are in its blocks. */
  predicate InPlace(memory: map<nat, string>, x: Placed) {
    x.uuidBlock != x.nameBlock && Holds(memory, x.uuidBlock, x.device.uuid) && Holds(memory, x.nameBlock, x.device.name)
  }

  predicate Apart(x: Placed, y: Placed) {
    !Uses(x, y.uuidBlock) && !Uses(x, y.nameBlock)
  }

  /** Each listed entry has blocks of its own, and its strings are in them. */
  ghost predicate Valid(h: Heap) {
    && (forall i :: 0 <= i < |h.list| ==> InPlace(h.memory, h.list[i]))
    && (forall i, j :: 0 <= i < j < |h.list| ==> Apart(h.list[i], h.list[j]))
  }

  /** Without the blocks this is the device list under the same requests. */
  lemma StepIsChange(h: Heap, e: Event)
    ensures DevicesIn(Step(h, e).list)
            == if e.Request? && Effective(DevicesIn(h.list), e.change) then Changed(DevicesIn(h.list), e.change)
               else DevicesIn(h.list)
  {
  }

  /** No event writes into a block that is in use. */
  lemma WrittenIsNotLive(h: Heap, e: Event, block: nat)
    requires Enabled(h, e) && block in Written(h, e)
    ensures !Live(h.list, block)
  {
  }

  /** The strings of an entry that was listed before stay where they are. */
  lemma StaysInPlace(h: Heap, e: Event, i: nat)
    requires Valid(h) && Enabled(h, e) && i < |h.list|
    ensures InPlace(Step(h, e).memory, h.list[i])
  {
    var x := h.list[i];
    assert Uses(x, x.uuidBlock) && Uses(x, x.nameBlock);
    if x.uuidBlock in Written(h, e) {
      WrittenIsNotLive(h, e, x.uuidBlock);
    }
    if x.nameBlock in Written(h, e) {
      WrittenIsNotLive(h, e, x.nameBlock);
    }
  }

  lemma PostKeepsValid(h: Heap, e: Event)
    requires Valid(h) && Enabled(h, e) && e.Request? && e.change.Post?
    ensures Valid(Step(h, e))
  {
    var t, x := Step(h, e), Placed(e.change.device, e.uuidBlock, e.nameBlock);
    assert t.list == [x] + h.list;
    assert InPlace(t.memory, x);
    forall i | 0 <= i < |h.list|
      ensures InPlace(t.memory, h.list[i]) && Apart(x, h.list[i])
    {
      StaysInPlace(h, e, i);
      assert Uses(h.list[i], h.list[i].uuidBlock) && Uses(h.list[i], h.list[i].nameBlock);
    }
  }

  lemma PutKeepsValid(h: Heap, e: Event)
    requires Valid(h) && Enabled(h, e) && e.Request? && e.change.Put?
    ensures Valid(Step(h, e))
  {
    forall i | 0 <= i < |h.list|
      ensures InPlace(Step(h, e).memory, h.list[i]) && !Uses(h.list[i], e.nameBlock)
    {
      StaysInPlace(h, e, i);
    }
  }

  lemma CutKeepsValid(h: Heap, p: nat)
    requires Valid(h) && p < |h.list|
    ensures Valid(Heap(Cut(h.list, p), h.memory))
  {
    var after := Cut(h.list, p);
    forall i | 0 <= i < |after|
      ensures InPlace(h.memory, after[i])
    {
      assert after[i] == h.list[if i < p then i else i + 1];
    }
    forall i, j | 0 <= i < j < |after|
      ensures Apart(after[i], after[j])
    {
      assert after[i] == h.list[if i < p then i else i + 1] && after[j] == h.list[if j < p then j else j + 1];
    }
  }

  lemma DeleteKeepsValid(h: Heap, e: Event)
    requires Valid(h) && e.Request? && e.change.Delete?
    ensures Valid(Step(h, e))
  {
    assert h.memory + map[] == h.memory;
    if Effective(DevicesIn(h.list), e.change) {
      var p := Position(DevicesIn(h.list), e.change.id);
      CutKeepsValid(h, p);
      assert Step(h, e) == Heap(Cut(h.list, p), h.memory);
    } else {
      assert Step(h, e) == h;
    }
  }

  lemma ElsewhereKeepsValid(h: Heap, e: Event)
    requires Valid(h) && Enabled(h, e) && e.Elsewhere?
    ensures Valid(Step(h, e))
  {
    forall i | 0 <= i < |h.list|
      ensures InPlace(Step(h, e).memory, h.list[i])
    {
      StaysInPlace(h, e, i);
    }
  }

  lemma StepKeepsValid(h: Heap, e: Event)
    requires Valid(h) && Enabled(h, e)
    ensures Valid(Step(h, e))
  {
    if e.Elsewhere? {
      ElsewhereKeepsValid(h, e);
    } else if e.change.Post? {
      PostKeepsValid(h, e);
    } else if e.change.Put? {
      PutKeepsValid(h, e);
    } else {
      DeleteKeepsValid(h, e);
    }
  }

  /** Over every run, a pointer into a listed entry reads the string of that entry. */
  lemma {:induction false} RunKeepsValid(h: Heap, events: seq<Event>)
    requires Valid(h) && EnabledAll(h, events)
    ensures Valid(Run(h, events))
    decreases |events|
  {
    if events != [] {
      StepKeepsValid(h, events[0]);
      RunKeepsValid(Step(h, events[0]), events[1..]);
    }
  }

  // ---- Reading through the pointer -----------------------------------------------------------------------

  /** The string that the pointer leads to. */
  function Read(h: Heap, block: nat): string {
    if block in h.memory then h.memory[block] else ""
  }

  /** lwm2m_name_is_valid for a session whose identifier points to the block. */
  predicate Accepted(h: Heap, block: nat, name: string) {
    Authentication.NameValid(true, DevicesIn(h.list), Some(Read(h, block)), name)
  }

  /** An entry with this uuid string in this block is listed. */
  predicate Owns(h: Heap, block: nat, uuid: string) {
    exists i :: 0 <= i < |h.list| && h.list[i].uuidBlock == block && h.list[i].device.uuid == uuid
  }

  /** The pointer leads to the uuid of a listed device other than the one that was bound. */
  predicate SpeaksForAnother(h: Heap, block: nat, uuid: string) {
    Read(h, block) != uuid && Lookup(DevicesIn(h.list), Read(h, block)).Some?
  }

  /** Then the session is accepted under the name of that other device. */
  lemma SpeakingIsBeingAccepted(h: Heap, block: nat, uuid: string)
    requires SpeaksForAnother(h, block, uuid)
    ensures exists d :: d in DevicesIn(h.list) && d.uuid != uuid && Accepted(h, block, d.name)
  {
    var devices := DevicesIn(h.list);
    assert devices[Position(devices, Read(h, block))] in devices;
  }

  /** Where an entry is after the event, unless it was deleted: with the same uuid, in the same block. */
  lemma StaysListed(h: Heap, e: Event, i: nat) returns (k: nat)
    requires i < |h.list| && (e.Request? ==> e.change != Change.Delete(h.list[i].device.uuid))
    ensures k < |Step(h, e).list|
    ensures Step(h, e).list[k].uuidBlock == h.list[i].uuidBlock
    ensures Step(h, e).list[k].device.uuid == h.list[i].device.uuid
  {
    k := i;
    if e.Request? && Effective(DevicesIn(h.list), e.change) {
      if e.change.Post? {
        k := i + 1;
      } else if e.change.Delete? {
        var p := Position(DevicesIn(h.list), e.change.id);
        assert DevicesIn(h.list)[p].uuid == e.change.id && i != p;
        k := if i < p then i else i - 1;
      }
    }
  }

  lemma StepKeepsOwner(h: Heap, e: Event, block: nat, uuid: string)
    requires Owns(h, block, uuid) && (e.Request? ==> e.change != Change.Delete(uuid))
    ensures Owns(Step(h, e), block, uuid)
  {
    var i :| 0 <= i < |h.list| && h.list[i].uuidBlock == block && h.list[i].device.uuid == uuid;
    var k := StaysListed(h, e, i);
  }

  lemma {:induction false} RunKeepsOwner(h: Heap, events: seq<Event>, block: nat, uuid: string)
    requires Valid(h) && EnabledAll(h, events) && Owns(h, block, uuid)
    requires forall e :: e in events && e.Request? ==> e.change != Change.Delete(uuid)
    ensures Valid(Run(h, events)) && Owns(Run(h, events), block, uuid)
    decreases |events|
  {
    if events != [] {
      StepKeepsValid(h, events[0]);
      StepKeepsOwner(h, events[0], block, uuid);
      RunKeepsOwner(Step(h, events[0]), events[1..], block, uuid);
    }
  }

  lemma OwnerIsRead(h: Heap, block: nat, uuid: string)
    requires Valid(h) && Owns(h, block, uuid)
    ensures Read(h, block) == uuid
  {
    var i :| 0 <= i < |h.list| && h.list[i].uuidBlock == block && h.list[i].device.uuid == uuid;
    assert InPlace(h.memory, h.list[i]);
  }

  /** As long as the device is not deleted, the pointer is as good as the uuid that was bound. */
  lemma PointerIsAsGoodAsUuid(h: Heap, events: seq<Event>, block: nat, uuid: string, name: string)
    requires Valid(h) && EnabledAll(h, events) && Owns(h, block, uuid)
    requires forall e :: e in events && e.Request? ==> e.change != Change.Delete(uuid)
    ensures Accepted(Run(h, events), block, name)
            <==> Authentication.NameValid(true, DevicesIn(Run(h, events).list), Some(uuid), name)
  {
    RunKeepsOwner(h, events, block, uuid);
    OwnerIsRead(Run(h, events), block, uuid);
  }

  // ---- After it is deleted -------------------------------------------------------------------------------

  lemma {:induction false} RunOneMore(h: Heap, events: seq<Event>, k: nat)
    requires k < |events|
    ensures Run(h, events[..k + 1]) == Step(Run(h, events[..k]), events[k])
    decreases |events|
  {
    if k == 0 {
      assert events[..1][1..] == [];
    } else {
      RunOneMore(Step(h, events[0]), events[1..], k - 1);
      assert events[..k][1..] == events[1..][..k - 1] && events[..k + 1][1..] == events[1..][..k];
    }
  }

  /** The i-th event of the run writes into the block. */
  predicate Writes(h: Heap, events: seq<Event>, i: nat, block: nat)
    requires i < |events|
  {
    block in Written(Run(h, events[..i]), events[i])
  }

  /** From the i-th event on, until before the k-th, nothing else is written into the block. */
  predicate LastWrite(h: Heap, events: seq<Event>, i: nat, k: nat, block: nat)
    requires i < k <= |events|
  {
    Writes(h, events, i, block) && forall j :: i < j < k ==> !Writes(h, events, j, block)
  }

  lemma ReadAfter(h: Heap, e: Event, block: nat)
    ensures Read(Step(h, e), block) == if block in Written(h, e) then Written(h, e)[block] else Read(h, block)
  {
  }

  /** The text of the last write, when there was one. */
  ghost predicate LastText(h: Heap, events: seq<Event>, k: nat, block: nat, last: Option<nat>, text: string)
    requires k <= |events|
  {
    if last.Some? then
      && last.value < k && LastWrite(h, events, last.value, k, block)
      && text == Written(Run(h, events[..last.value]), events[last.value])[block]
    else text == Read(h, block) && forall j :: 0 <= j < k ==> !Writes(h, events, j, block)
  }

  lemma NotWritten(h: Heap, events: seq<Event>, k: nat, block: nat, last: Option<nat>, text: string)
    requires k < |events| && LastText(h, events, k, block, last, text) && !Writes(h, events, k, block)
    ensures LastText(h, events, k + 1, block, last, text)
  {
  }

  /** The block holds what was last written into it, or what it held before. */
  lemma {:induction false} ReadIsLastWrite(h: Heap, events: seq<Event>, k: nat, block: nat) returns (last: Option<nat>)
    requires k <= |events|
    ensures LastText(h, events, k, block, last, Read(Run(h, events[..k]), block))
    decreases k
  {
    if k == 0 {
      last := None;
    } else {
      RunOneMore(h, events, k - 1);
      ReadAfter(Run(h, events[..k - 1]), events[k - 1], block);
      if Writes(h, events, k - 1, block) {
        last := Some(k - 1);
      } else {
        last := ReadIsLastWrite(h, events, k - 1, block);
        NotWritten(h, events, k - 1, block, last, Read(Run(h, events[..k - 1]), block));
      }
    }
  }

  lemma OnlyOneLastWrite(h: Heap, events: seq<Event>, i: nat, j: nat, k: nat, block: nat)
    requires i < k <= |events| && j < k && LastWrite(h, events, i, k, block) && LastWrite(h, events, j, k, block)
    ensures i == j
  {
  }

  /**
   * The i-th event puts a uuid other than the bound one into the block, as a uuid, as a name, or as another text;
   * and before anything else is written there, a device with that uuid is listed.
   */
  predicate PutsInUuid(h: Heap, events: seq<Event>, i: nat, k: nat, block: nat, uuid: string)
    requires i < k <= |events|
  {
    && LastWrite(h, events, i, k, block)
    && var text := Written(Run(h, events[..i]), events[i])[block];
       text != uuid && Lookup(DevicesIn(Run(h, events[..k]).list), text).Some?
  }

  lemma SpeaksExactlyWhenPutIn(h: Heap, events: seq<Event>, k: nat, block: nat, uuid: string)
    requires k <= |events| && Read(h, block) == uuid
    ensures SpeaksForAnother(Run(h, events[..k]), block, uuid)
            <==> exists i :: 0 <= i < k && PutsInUuid(h, events, i, k, block, uuid)
  {
    var last := ReadIsLastWrite(h, events, k, block);
    if last.Some? {
      forall i | 0 <= i < k && PutsInUuid(h, events, i, k, block, uuid)
        ensures i == last.value
      {
        OnlyOneLastWrite(h, events, i, last.value, k, block);
      }
      assert SpeaksForAnother(Run(h, events[..k]), block, uuid) <==> PutsInUuid(h, events, last.value, k, block, uuid);
    }
  }

  /**
   * A session comes to speak for another device, at some moment of a run, if and only if some event of the run
   * puts the uuid of another listed device into its block.
   */
  lemma SpeaksForAnotherExactlyWhenPutIn(h: Heap, events: seq<Event>, block: nat, uuid: string)
    requires Valid(h) && Owns(h, block, uuid)
    ensures (exists k :: 0 <= k <= |events| && SpeaksForAnother(Run(h, events[..k]), block, uuid))
            <==> exists i, k :: 0 <= i < k <= |events| && PutsInUuid(h, events, i, k, block, uuid)
  {
    OwnerIsRead(h, block, uuid);
    forall k | 0 <= k <= |events|
      ensures SpeaksForAnother(Run(h, events[..k]), block, uuid)
              <==> exists i :: 0 <= i < k && PutsInUuid(h, events, i, k, block, uuid)
    {
      SpeaksExactlyWhenPutIn(h, events, k, block, uuid);
    }
  }

  /** While the device is listed no event of the run can do that. */
  lemma NothingPutInWhileListed(h: Heap, e: Event, block: nat, uuid: string)
    requires Valid(h) && Enabled(h, e) && Owns(h, block, uuid)
    ensures block !in Written(h, e)
  {
    var i :| 0 <= i < |h.list| && h.list[i].uuidBlock == block && h.list[i].device.uuid == uuid;
    assert Uses(h.list[i], block);
  }

  /** If the block is left alone, a session of a deleted device is accepted under no name. */
  lemma DeletedDeviceHasNoName(h: Heap, events: seq<Event>, block: nat, uuid: string, name: string)
    requires Valid(h) && Owns(h, block, uuid)
    requires forall j :: 0 <= j < |events| ==> !Writes(h, events, j, block)
    requires Lookup(DevicesIn(Run(h, events).list), uuid).None?
    ensures !Accepted(Run(h, events), block, name)
  {
    OwnerIsRead(h, block, uuid);
    var last := ReadIsLastWrite(h, events, |events|, block);
    assert events[..|events|] == events;
  }

  // ---- Two runs in which it happens ----------------------------------------------------------------------

  const BOUND: Device := Device("a", "a", Psk, [1], [2], [])
  const OTHER: Device := Device("b", "b", Psk, [3], [4], [])

  /** A session can be bound to the device, and its uuid is in block 0. */
  lemma CanBeBound()
    ensures Authentication.PskPosition([BOUND], [1]) == 0
    ensures Authentication.IdentifierOf([BOUND], [1]) == Some("a")
    ensures Valid(Heap([Placed(BOUND, 0, 1)], map[0 := "a", 1 := "a"]))
    ensures Owns(Heap([Placed(BOUND, 0, 1)], map[0 := "a", 1 := "a"]), 0, "a")
  {
    var h := Heap([Placed(BOUND, 0, 1)], map[0 := "a", 1 := "a"]);
    assert Authentication.KeyPosition([BOUND], [1]) == 0;
    assert h.list[0].uuidBlock == 0 && h.list[0].device.uuid == "a";
  }

  lemma RunTwo(h: Heap, e: Event, f: Event)
    ensures Run(h, [e, f]) == Step(Step(h, e), f)
    ensures Enabled(h, e) && Enabled(Step(h, e), f) ==> EnabledAll(h, [e, f])
  {
    assert [e, f][1..] == [f] && [f][1..] == [];
    assert Run(Step(h, e), [f]) == Run(Step(Step(h, e), f), []);
  }

  /** Only b is listed, and the block holds its uuid. */
  lemma OtherIsAccepted(h: Heap)
    requires |h.list| == 1 && h.list[0].device == OTHER && Holds(h.memory, 0, "b")
    ensures SpeaksForAnother(h, 0, "a") && Accepted(h, 0, "b")
  {
    assert "a"[0] != "b"[0];
    assert DevicesIn(h.list)[0] == OTHER;
    assert Position(DevicesIn(h.list), "b") == 0;
  }

  /** Bind a session to a, delete a, post b with its uuid in the same block: the session is accepted as b. */
  lemma ReusedBlockSpeaksForAnother()
    ensures var h := Heap([Placed(BOUND, 0, 1)], map[0 := "a", 1 := "a"]);
            var events := [Request(Delete("a"), 0, 0), Request(Post(OTHER), 0, 2)];
            EnabledAll(h, events) && SpeaksForAnother(Run(h, events), 0, "a") && Accepted(Run(h, events), 0, "b")
  {
    var h := Heap([Placed(BOUND, 0, 1)], map[0 := "a", 1 := "a"]);
    var e, f := Request(Delete("a"), 0, 0), Request(Post(OTHER), 0, 2);
    assert DevicesIn(h.list)[0].uuid == "a";
    assert Position(DevicesIn(h.list), "a") == 0;
    assert Step(h, e).list == [];
    assert Step(Step(h, e), f).list == [Placed(OTHER, 0, 2)];
    RunTwo(h, e, f);
    OtherIsAccepted(Step(Step(h, e), f));
  }

  const RENAMED: Device := OTHER.(name := "c")

  /** Bind a session to a, delete a, rename b to its own uuid, with the name in that block: the same. */
  lemma NameInBlockSpeaksForAnother()
    ensures var h := Heap([Placed(RENAMED, 2, 3), Placed(BOUND, 0, 1)], map[0 := "a", 1 := "a", 2 := "b", 3 := "c"]);
            var events := [Request(Delete("a"), 0, 0), Request(Put("b", "b"), 0, 0)];
            && Valid(h) && Owns(h, 0, "a") && EnabledAll(h, events)
            && SpeaksForAnother(Run(h, events), 0, "a") && Accepted(Run(h, events), 0, "b")
  {
    var h := Heap([Placed(RENAMED, 2, 3), Placed(BOUND, 0, 1)], map[0 := "a", 1 := "a", 2 := "b", 3 := "c"]);
    var e, f := Request(Delete("a"), 0, 0), Request(Put("b", "b"), 0, 0);
    assert "a"[0] != "b"[0];
    assert DevicesIn(h.list)[1].uuid == "a" && h.list[1].uuidBlock == 0;
    assert Position(DevicesIn(h.list), "a") == 1;
    var one := Step(h, e);
    assert one.list == [Placed(RENAMED, 2, 3)];
    assert Position(DevicesIn(one.list), "b") == 0;
    assert Step(one, f).list == [Placed(OTHER, 2, 0)];
    RunTwo(h, e, f);
    OtherIsAccepted(Step(one, f));
  }
}
