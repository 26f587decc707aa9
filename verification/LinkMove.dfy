/** Moving a netdev into a container's namespace and back, with the undo that failures call for. */
module LinkMove {
  import opened Common
  import Decimal

  const HOST: string := "host"

  /** Interface indexes are positive 32-bit ints; 0 stands for none. */
  type Index = i: nat | i < 0x8000_0000

  datatype Link = Link(ns: string, name: string, up: bool, alias: string, index: Index)

  /** Links under an identity of our own, since name and interface index change on the way. */
  type Links = map<nat, Link>

  /** What a lookup returns: the link and its attributes at that moment. */
  datatype Handle = Handle(id: nat, name: string, up: bool, index: Index)

  const NAME_SIZE: nat := 16

  /** What the kernel takes for a name. An alias may be any text. */
  predicate ValidName(name: string) {
    && 0 < |name| < NAME_SIZE && name != "." && name != ".."
    && forall i :: 0 <= i < |name| ==> name[i] !in {'/', ':', ' ', '\t', '\n', '\U{0B}', '\U{0C}', '\r'}
  }

  predicate Taken(links: Links, ns: string, name: string, id: nat) {
    exists other :: other in links && other != id && links[other].ns == ns && links[other].name == name
  }

  ghost predicate ProperNames(links: Links) {
    forall i :: i in links ==> ValidName(links[i].name) && !Taken(links, links[i].ns, links[i].name, i)
  }

  /** A link may get that name there. */
  ghost predicate Free(links: Links, ns: string, name: string, id: nat) {
    ValidName(name) && !Taken(links, ns, name, id)
  }

  function TempName(index: Index): string {
    "temp_" + Decimal.PrintNat(index)
  }

  /** Ten digits are enough for an index, so the temporary name fits. */
  lemma TempNameIsValid(index: Index)
    ensures ValidName(TempName(index))
  {
    var digits := Decimal.PrintNat(index);
    Decimal.PrintedLength(index, 10);
    forall i | 0 <= i < |TempName(index)|
      ensures TempName(index)[i] !in {'/', ':', ' ', '\t', '\n', '\U{0B}', '\U{0C}', '\r'}
    {
      if i >= 5 { assert Decimal.IsDigit(digits[i - 5]); }
    }
    assert TempName(index)[0] == 't';
  }

  /** The index can be read off the temporary name, so no two indexes share one. */
  lemma TempNameTellsIndex(index: Index)
    ensures TempName(index)[..5] == "temp_" && Decimal.Atoi(TempName(index)[5..]) == Some(index)
  {
    assert TempName(index)[5..] == Decimal.PrintNat(index);
    Decimal.AtoiOfDigits(index);
  }

  ghost predicate OthersKept(before: Links, after: Links, id: nat) {
    after.Keys == before.Keys && forall i :: i in before && i != id ==> after[i] == before[i]
  }

  /** Back where it was, under its name and up iff it was up. Alias and index may differ. */
  ghost predicate Restored(before: Links, after: Links, id: nat) {
    && id in before && OthersKept(before, after, id)
    && after[id].ns == before[id].ns && after[id].name == before[id].name && after[id].up == before[id].up
  }

  /** Kernel and netlink. Calls act in a namespace and fail on links that are elsewhere; a rename needs
      the link down and the name free, a move needs the name free and takes the link down. On top of
      that calls with `mayFail` fail at will; undo calls are made without. */
  class Kernel {
    var links: Links
    const faults: Faults

    constructor (links: Links, faults: Faults)
      ensures this.links == links && this.faults == faults
    {
      this.links, this.faults := links, faults;
    }

    /** No failure at will is to come. */
    ghost predicate Reliable(mayFail: bool)
      reads faults
    {
      !mayFail || faults.script == []
    }

    method Try(mayFail: bool) returns (ok: bool)
      modifies faults
      ensures old(Reliable(mayFail)) ==> ok && faults.script == old(faults.script)
    {
      ok := true;
      if mayFail { ok := faults.Next(); }
    }

    method LinkByName(ns: string, name: string, mayFail: bool) returns (found: Option<Handle>)
      modifies faults
      ensures old(Reliable(mayFail)) ==> faults.script == old(faults.script)
      ensures found.Some? ==>
        var h := found.value;
        h.id in links && links[h.id].ns == ns && links[h.id].name == name
        && h == Handle(h.id, name, links[h.id].up, links[h.id].index)
      ensures old(Reliable(mayFail)) && (exists i :: i in links && links[i].ns == ns && links[i].name == name) ==>
        found.Some?
    {
      var ok := Try(mayFail);
      found := None;
      if ok {
        if i :| i in links && links[i].ns == ns && links[i].name == name {
          found := Some(Handle(i, name, links[i].up, links[i].index));
        }
      }
    }

    method SetDown(ns: string, id: nat, mayFail: bool) returns (ok: bool)
      requires id in links
      modifies this`links, faults
      ensures ok ==> links == old(links)[id := old(links)[id].(up := false)] && links[id].ns == ns
      ensures !ok ==> links == old(links)
      ensures old(Reliable(mayFail)) ==> faults.script == old(faults.script) && (ok <==> old(links)[id].ns == ns)
    {
      ok := Try(mayFail);
      ok := ok && links[id].ns == ns;
      if ok { links := links[id := links[id].(up := false)]; }
    }

    method SetUp(ns: string, id: nat, mayFail: bool) returns (ok: bool)
      requires id in links
      modifies this`links, faults
      ensures ok ==> links == old(links)[id := old(links)[id].(up := true)] && links[id].ns == ns
      ensures !ok ==> links == old(links)
      ensures old(Reliable(mayFail)) ==> faults.script == old(faults.script) && (ok <==> old(links)[id].ns == ns)
    {
      ok := Try(mayFail);
      ok := ok && links[id].ns == ns;
      if ok { links := links[id := links[id].(up := true)]; }
    }

    method SetAlias(ns: string, id: nat, alias: string, mayFail: bool) returns (ok: bool)
      requires id in links
      modifies this`links, faults
      ensures ok ==> links == old(links)[id := old(links)[id].(alias := alias)] && links[id].ns == ns
      ensures !ok ==> links == old(links)
      ensures old(Reliable(mayFail)) ==> faults.script == old(faults.script) && (ok <==> old(links)[id].ns == ns)
    {
      ok := Try(mayFail);
      ok := ok && links[id].ns == ns;
      if ok { links := links[id := links[id].(alias := alias)]; }
    }

    method SetName(ns: string, id: nat, name: string, mayFail: bool) returns (ok: bool)
      requires id in links
      modifies this`links, faults
      ensures ok ==> links == old(links)[id := old(links)[id].(name := name)]
      ensures ok ==> links[id].ns == ns && !links[id].up && Free(links, ns, name, id)
      ensures !ok ==> links == old(links)
      ensures old(Reliable(mayFail)) ==>
        && faults.script == old(faults.script)
        && (ok <==> old(links[id].ns == ns && !links[id].up && Free(links, ns, name, id)))
    {
      ok := Try(mayFail);
      ok := ok && ValidName(name) && links[id].ns == ns && !links[id].up && !Taken(links, ns, name, id);
      if ok {
        ghost var before := links;
        links := links[id := links[id].(name := name)];
        assert forall other :: other in links && other != id ==> links[other] == before[other];
      }
    }

    /** The interface keeps its index only where that is free. */
    method SetNs(ns: string, id: nat, target: string, mayFail: bool) returns (ok: bool)
      requires id in links
      modifies this`links, faults
      ensures ok ==> OthersKept(old(links), links, id)
      ensures ok ==> links[id] == old(links)[id].(ns := target, up := false, index := links[id].index)
      ensures ok ==> old(links)[id].ns == ns && !Taken(links, target, links[id].name, id)
      ensures !ok ==> links == old(links)
      ensures old(Reliable(mayFail)) ==>
        && faults.script == old(faults.script)
        && (ok <==> old(links[id].ns == ns && !Taken(links, target, links[id].name, id)))
    {
      ok := Try(mayFail);
      ok := ok && links[id].ns == ns && !Taken(links, target, links[id].name, id);
      if ok {
        ghost var before := links;
        var index: Index :| true;
        links := links[id := links[id].(ns := target, up := false, index := index)];
        assert forall other :: other in links && other != id ==> links[other] == before[other];
      }
    }

    /** Renames to a temporary name and looks the link up again. */
    method SetDevTempName(ns: string, dev: Handle) returns (renamed: bool, found: Option<Handle>)
      requires ProperNames(links) && dev.id in links
      modifies this`links, faults
      ensures renamed ==> links == old(links)[dev.id := old(links)[dev.id].(name := TempName(dev.index))]
      ensures renamed ==> links[dev.id].ns == ns && !links[dev.id].up && ProperNames(links)
      ensures !renamed ==> links == old(links) && found == None
      ensures found.Some? ==> found.value.id == dev.id && found.value.name == TempName(dev.index) && !found.value.up
      ensures old(faults.script) == [] ==>
        && faults.script == [] && renamed == found.Some?
        && (renamed <==>
           old(links[dev.id].ns == ns && !links[dev.id].up && !Taken(links, ns, TempName(dev.index), dev.id)))
    {
      found := None;
      TempNameIsValid(dev.index);
      renamed := SetName(ns, dev.id, TempName(dev.index), true);
      if renamed {
        assert links[dev.id].ns == ns && links[dev.id].name == TempName(dev.index);
        RenameKeepsProper(old(links), links, dev.id);
        found := LinkByName(ns, TempName(dev.index), true);
        OnlyOneOfThatName(links, dev.id, found);
      }
    }
  }

  predicate SamePlace(l: Link, m: Link) {
    l.ns == m.ns && l.name == m.name
  }

  lemma RenameKeepsProper(before: Links, after: Links, id: nat)
    requires ProperNames(before) && id in before
    requires OthersKept(before, after, id) && Free(after, after[id].ns, after[id].name, id)
    ensures ProperNames(after)
  {
    forall i | i in after ensures !Taken(after, after[i].ns, after[i].name, i) {
      if i != id {
        assert !Taken(before, before[i].ns, before[i].name, i);
      }
    }
  }

  lemma RestoredIsProper(before: Links, after: Links, id: nat)
    requires ProperNames(before) && Restored(before, after, id)
    ensures ProperNames(after)
  {
    assert Free(before, before[id].ns, before[id].name, id);
    TakenByOthers(before, after, id);
    RenameKeepsProper(before, after, id);
  }

  lemma OnlyOneOfThatName(links: Links, id: nat, found: Option<Handle>)
    requires ProperNames(links) && id in links
    requires found.Some? ==> found.value.id in links && SamePlace(links[found.value.id], links[id])
    ensures found.Some? ==> found.value.id == id
  {
    assert !Taken(links, links[id].ns, links[id].name, id);
  }

  lemma TakenByOthers(before: Links, after: Links, id: nat)
    requires OthersKept(before, after, id)
    ensures forall ns, name :: Taken(after, ns, name, id) == Taken(before, ns, name, id)
  {
    forall ns, name ensures Taken(after, ns, name, id) == Taken(before, ns, name, id) {
      if Taken(before, ns, name, id) {
        var other :| other in before && other != id && before[other].ns == ns && before[other].name == name;
        assert other in after && after[other] == before[other];
      }
      if Taken(after, ns, name, id) {
        var other :| other in after && other != id && after[other].ns == ns && after[other].name == name;
        assert other in before && before[other] == after[other];
      }
    }
  }

  /** Where a move stopped. */
  datatype Step =
    | Complete
    | FirstDown          // taking the device down
    | TempRename         // giving it the temporary name
    | TempLookup         // finding it under that name
    | NsMove             // moving it to the container
    | ContainerLookup    // finding it there
    | ContainerSetup     // alias, final name, taking it up
    | HostLookup         // on the way back, finding it in the host namespace
    | HostRename         // on the way back, restoring the name in the alias

  /** Where a move into a container stops if nothing fails at will: on the first name it cannot give. */
  ghost function MoveInStops(links: Links, id: nat, container: string, ifName: string): Step
    requires id in links
  {
    var tempName := TempName(links[id].index);
    if Taken(links, HOST, tempName, id) then TempRename
    else if Taken(links, container, tempName, id) then NsMove
    else if !Free(links, container, ifName, id) then ContainerSetup
    else Complete
  }

  ghost function MoveOutStops(links: Links, id: nat, container: string): Step
    requires id in links
  {
    var tempName := TempName(links[id].index);
    if Taken(links, container, tempName, id) then TempRename
    else if Taken(links, HOST, tempName, id) then NsMove
    else if !Free(links, HOST, links[id].alias, id) then HostRename
    else Complete
  }

  ghost predicate TempNamesFree(links: Links, id: nat, container: string) {
    forall index :: !Taken(links, HOST, TempName(index), id) && !Taken(links, container, TempName(index), id)
  }

  class Mover {
    const k: Kernel

    constructor (k: Kernel)
      ensures this.k == k
    {
      this.k := k;
    }

    /** Moves a host device into a container. A failed namespace move, alias, rename or set-up is
        undone. A failed rename to the temporary name leaves the device down, a failed lookup leaves
        it renamed as well or, in the container, there. */
    method MoveIn(dev: Handle, container: string, ifName: string) returns (at: Step)
      requires ProperNames(k.links) && container != HOST
      requires dev.id in k.links && k.links[dev.id].ns == HOST
      requires dev == Handle(dev.id, k.links[dev.id].name, k.links[dev.id].up, k.links[dev.id].index)
      modifies k`links, k.faults
      ensures OthersKept(old(k.links), k.links, dev.id) && ProperNames(k.links)
      ensures at == Complete ==>
        var l := k.links[dev.id];
        l.ns == container && l.name == ifName && l.up && l.alias == dev.name
      ensures at in {FirstDown, NsMove, ContainerSetup} ==> Restored(old(k.links), k.links, dev.id)
      ensures at == TempRename ==> k.links[dev.id] == old(k.links)[dev.id].(up := false)
      ensures at == TempLookup ==>
        k.links[dev.id] == old(k.links)[dev.id].(up := false, name := TempName(dev.index))
      ensures at == ContainerLookup ==> k.links[dev.id].ns == container && !Restored(old(k.links), k.links, dev.id)
      ensures old(k.faults.script) == [] ==>
        && k.faults.script == []
        && at == MoveInStops(old(k.links), dev.id, container, ifName)
        && (Restored(old(k.links), k.links, dev.id) <==> at != Complete && (at == TempRename ==> !dev.up))
    {
      ghost var links0 := k.links;
      var id := dev.id;
      var ok := k.SetDown(HOST, id, true);
      if !ok { return FirstDown; }
      at := TakeIn(links0, dev, container, ifName);
    }

    /** From the device that was taken down in the host namespace on. */
    method TakeIn(ghost links0: Links, dev: Handle, container: string, ifName: string) returns (at: Step)
      requires ProperNames(links0) && container != HOST
      requires dev.id in links0 && links0[dev.id].ns == HOST
      requires dev == Handle(dev.id, links0[dev.id].name, links0[dev.id].up, links0[dev.id].index)
      requires k.links == links0[dev.id := links0[dev.id].(up := false)]
      modifies k`links, k.faults
      ensures OthersKept(links0, k.links, dev.id) && ProperNames(k.links)
      ensures at in {Complete, TempRename, TempLookup, NsMove, ContainerLookup, ContainerSetup}
      ensures at == Complete ==>
        var l := k.links[dev.id];
        l.ns == container && l.name == ifName && l.up && l.alias == dev.name
      ensures at in {NsMove, ContainerSetup} ==> Restored(links0, k.links, dev.id)
      ensures at == TempRename ==> k.links[dev.id] == links0[dev.id].(up := false)
      ensures at == TempLookup ==> k.links[dev.id] == links0[dev.id].(up := false, name := TempName(dev.index))
      ensures at == ContainerLookup ==> k.links[dev.id].ns == container
      ensures old(k.faults.script) == [] ==>
        k.faults.script == [] && at == MoveInStops(links0, dev.id, container, ifName)
    {
      TakenByOthers(links0, k.links, dev.id);
      RenameKeepsProper(links0, k.links, dev.id);
      var renamed, temp := k.SetDevTempName(HOST, dev);
      if !renamed { return TempRename; }
      if temp.None? { return TempLookup; }
      at := MoveOn(links0, dev, temp.value.name, container, ifName);
    }

    /** From the temporary name in the host namespace on. */
    method MoveOn(ghost links0: Links, dev: Handle, tempName: string, container: string, ifName: string)
      returns (at: Step)
      requires container != HOST && dev.id in k.links && OthersKept(links0, k.links, dev.id)
      requires ProperNames(links0) && ProperNames(k.links)
      requires dev.id in links0 && links0[dev.id].ns == HOST
      requires links0[dev.id].name == dev.name && links0[dev.id].up == dev.up
      requires k.links[dev.id].ns == HOST && k.links[dev.id].name == tempName && !k.links[dev.id].up
      modifies k`links, k.faults
      ensures OthersKept(links0, k.links, dev.id) && ProperNames(k.links)
      ensures at in {Complete, NsMove, ContainerLookup, ContainerSetup}
      ensures at == Complete ==>
        var l := k.links[dev.id];
        l.ns == container && l.name == ifName && l.up && l.alias == dev.name
      ensures at in {NsMove, ContainerSetup} ==> Restored(links0, k.links, dev.id)
      ensures at == ContainerLookup ==> k.links[dev.id].ns == container
      ensures old(k.faults.script) == [] ==>
        && k.faults.script == []
        && (at == NsMove <==> Taken(links0, container, tempName, dev.id))
        && (at == Complete <==>
              !Taken(links0, container, tempName, dev.id) && Free(links0, container, ifName, dev.id))
        && at != ContainerLookup
    {
      var id := dev.id;
      TakenByOthers(links0, k.links, id);
      assert !Taken(k.links, HOST, tempName, id);
      var ok := k.SetNs(HOST, id, container, true);
      if !ok {
        UndoOutside(links0, dev);
        return NsMove;
      }
      TakenByOthers(links0, k.links, id);
      RenameKeepsProper(links0, k.links, id);
      assert k.links[id].ns == container && k.links[id].name == tempName;
      var contDev := k.LinkByName(container, tempName, true);
      if contDev.None? {
        UndoOutside(links0, dev);
        return ContainerLookup;
      }
      ok := SetUpInside(links0, dev, tempName, container, ifName);
      if !ok {
        UndoOutside(links0, dev);
        return ContainerSetup;
      }
      return Complete;
    }

    /** The outer undo: the name, then the up flag, of a device that is in the host namespace. */
    method UndoOutside(ghost links0: Links, dev: Handle)
      requires dev.id in k.links && OthersKept(links0, k.links, dev.id) && ProperNames(links0) && ProperNames(k.links)
      requires dev.id in links0 && links0[dev.id].ns == HOST
      requires links0[dev.id].name == dev.name && links0[dev.id].up == dev.up
      requires !k.links[dev.id].up
      modifies k`links, k.faults
      ensures OthersKept(links0, k.links, dev.id) && ProperNames(k.links)
      ensures old(k.links)[dev.id].ns == HOST ==> Restored(links0, k.links, dev.id)
      ensures old(k.links)[dev.id].ns != HOST ==> k.links == old(k.links)
      ensures k.faults.script == old(k.faults.script)
    {
      TakenByOthers(links0, k.links, dev.id);
      assert Free(links0, HOST, dev.name, dev.id);
      var renamed := k.SetName(HOST, dev.id, dev.name, false);
      if dev.up { var _ := k.SetUp(HOST, dev.id, false); }
      if renamed { RestoredIsProper(links0, k.links, dev.id); }
    }

    /** The part that runs inside the container, with its own undo: on failure the device is back in
        the host namespace under the temporary name. */
    method SetUpInside(ghost links0: Links, dev: Handle, tempName: string, container: string, ifName: string)
      returns (ok: bool)
      requires container != HOST && dev.id in k.links && OthersKept(links0, k.links, dev.id)
      requires ProperNames(links0) && ProperNames(k.links) && !Taken(links0, HOST, tempName, dev.id)
      requires !Taken(links0, container, tempName, dev.id)
      requires k.links[dev.id].ns == container && k.links[dev.id].name == tempName && !k.links[dev.id].up
      modifies k`links, k.faults
      ensures OthersKept(links0, k.links, dev.id) && ProperNames(k.links)
      ensures ok ==>
        var l := k.links[dev.id];
        l.ns == container && l.name == ifName && l.up && l.alias == dev.name
      ensures !ok ==> k.links[dev.id].ns == HOST && k.links[dev.id].name == tempName && !k.links[dev.id].up
      ensures old(k.faults.script) == [] ==>
        k.faults.script == [] && (ok <==> Free(links0, container, ifName, dev.id))
    {
      var id := dev.id;
      ok := k.SetAlias(container, id, dev.name, true);
      if ok {
        ok := RenameAndSetUp(links0, id, tempName, container, ifName);
        if ok {
          RenameKeepsProper(links0, k.links, id);
          return;
        }
      }
      BackToHost(links0, id, tempName, container);
    }

    /** The final name and the up flag; a device that does not come up is renamed back. */
    method RenameAndSetUp(ghost links0: Links, id: nat, tempName: string, container: string, ifName: string)
      returns (ok: bool)
      requires id in k.links && OthersKept(links0, k.links, id) && Free(links0, container, tempName, id)
      requires k.links[id].ns == container && k.links[id].name == tempName && !k.links[id].up
      modifies k`links, k.faults
      ensures OthersKept(links0, k.links, id) && k.links[id].ns == container && k.links[id].up == ok
      ensures k.links[id].name == if ok then ifName else tempName
      ensures ok ==> k.links[id].alias == old(k.links)[id].alias && Free(k.links, container, ifName, id)
      ensures old(k.faults.script) == [] ==> k.faults.script == [] && (ok <==> Free(links0, container, ifName, id))
    {
      TakenByOthers(links0, k.links, id);
      ok := k.SetName(container, id, ifName, true);
      if ok {
        TakenByOthers(links0, k.links, id);
        ok := k.SetUp(container, id, true);
        if !ok { var _ := k.SetName(container, id, tempName, false); }
        TakenByOthers(links0, k.links, id);
      }
    }

    /** The inner undo of the namespace move. */
    method BackToHost(ghost links0: Links, id: nat, tempName: string, container: string)
      requires id in k.links && OthersKept(links0, k.links, id) && ProperNames(links0)
      requires Free(links0, HOST, tempName, id)
      requires k.links[id].ns == container && k.links[id].name == tempName && !k.links[id].up
      modifies k`links, k.faults
      ensures OthersKept(links0, k.links, id) && ProperNames(k.links)
      ensures k.links[id].ns == HOST && k.links[id].name == tempName && !k.links[id].up
      ensures k.faults.script == old(k.faults.script)
    {
      TakenByOthers(links0, k.links, id);
      var _ := k.SetNs(container, id, HOST, false);
      TakenByOthers(links0, k.links, id);
      RenameKeepsProper(links0, k.links, id);
    }

    /** Moves a device back to the host under the name in its alias. Failures up to the temporary name
        and of the final rename are undone; a failed namespace move is undone but for the up flag,
        which is read off the device after it was taken down. */
    method MoveOut(container: string, ifName: string) returns (at: Step, id: nat)
      requires ProperNames(k.links) && container != HOST
      modifies k`links, k.faults
      ensures at == ContainerLookup ==> k.links == old(k.links)
      ensures at != ContainerLookup ==>
        && id in old(k.links) && old(k.links)[id].ns == container && old(k.links)[id].name == ifName
        && OthersKept(old(k.links), k.links, id)
      ensures at == Complete ==>
        var l := k.links[id];
        l.ns == HOST && l.name == old(k.links)[id].alias && l.alias == l.name && !l.up
      ensures at in {FirstDown, TempRename, TempLookup, HostRename} ==> Restored(old(k.links), k.links, id)
      ensures at == NsMove ==>
        && k.links[id].ns == container && k.links[id].name == ifName
        && (Restored(old(k.links), k.links, id) <==> !old(k.links)[id].up)
      ensures at == HostLookup ==> k.links[id].ns == HOST && !Restored(old(k.links), k.links, id)
      ensures at in {Complete, ContainerLookup, FirstDown, TempRename, TempLookup, NsMove, HostLookup, HostRename}
      ensures ProperNames(k.links)
      ensures old(k.faults.script) == [] ==>
        && k.faults.script == []
        && (at == ContainerLookup ==>
           forall i :: i in k.links ==> k.links[i].ns != container || k.links[i].name != ifName)
        && (at != ContainerLookup ==>
              && at == MoveOutStops(old(k.links), id, container)
              && (Restored(old(k.links), k.links, id) <==>
                    at != Complete && (at == NsMove ==> !old(k.links)[id].up)))
    {
      ghost var links0 := k.links;
      id := 0;
      var found := k.LinkByName(container, ifName, true);
      if found.None? { return ContainerLookup, id; }
      var dev := found.value;
      id := dev.id;
      var ok := k.SetDown(container, id, true);
      if !ok { return FirstDown, id; }
      at := TakeOut(links0, dev, container, ifName);
    }

    /** From the device that was taken down in the container on. */
    method TakeOut(ghost links0: Links, dev: Handle, container: string, ifName: string) returns (at: Step)
      requires container != HOST && ProperNames(links0) && dev.id in links0
      requires links0[dev.id].ns == container && links0[dev.id].name == ifName
      requires links0[dev.id].up == dev.up && links0[dev.id].index == dev.index
      requires k.links == links0[dev.id := links0[dev.id].(up := false)]
      modifies k`links, k.faults
      ensures OthersKept(links0, k.links, dev.id) && ProperNames(k.links)
      ensures at in {Complete, TempRename, TempLookup, NsMove, HostLookup, HostRename}
      ensures at == Complete ==>
        var l := k.links[dev.id];
        l.ns == HOST && l.name == links0[dev.id].alias && l.alias == l.name && !l.up
      ensures at in {TempRename, TempLookup, HostRename} ==> Restored(links0, k.links, dev.id)
      ensures at == NsMove ==>
        k.links[dev.id].ns == container && k.links[dev.id].name == ifName && !k.links[dev.id].up
      ensures at == HostLookup ==> k.links[dev.id].ns == HOST
      ensures old(k.faults.script) == [] ==>
        k.faults.script == [] && at == MoveOutStops(links0, dev.id, container)
    {
      var id := dev.id;
      TakenByOthers(links0, k.links, id);
      RenameKeepsProper(links0, k.links, id);
      var renamed, temp := k.SetDevTempName(container, dev);
      TakenByOthers(links0, k.links, id);
      if !renamed || temp.None? {
        UndoInside(links0, dev, container, ifName, dev.up);
        return if renamed then TempLookup else TempRename;
      }
      at := LeaveContainer(links0, dev, temp.value, container, ifName);
    }

    /** From the temporary name in the container on. */
    method LeaveContainer(ghost links0: Links, dev: Handle, temp: Handle, container: string, ifName: string)
      returns (at: Step)
      requires container != HOST && dev.id in k.links && OthersKept(links0, k.links, dev.id) && ProperNames(links0)
      requires dev.id in links0 && links0[dev.id].ns == container
      requires links0[dev.id].name == ifName && links0[dev.id].up == dev.up
      requires k.links[dev.id].ns == container && k.links[dev.id].name == temp.name && !k.links[dev.id].up && !temp.up
      requires k.links[dev.id].alias == links0[dev.id].alias && ProperNames(k.links)
      modifies k`links, k.faults
      ensures OthersKept(links0, k.links, dev.id) && ProperNames(k.links)
      ensures at in {Complete, NsMove, HostLookup, HostRename}
      ensures at == Complete ==>
        var l := k.links[dev.id];
        l.ns == HOST && l.name == links0[dev.id].alias && l.alias == l.name && !l.up
      ensures at == HostRename ==> Restored(links0, k.links, dev.id)
      ensures at == NsMove ==> k.links[dev.id].ns == container && k.links[dev.id].name == ifName && !k.links[dev.id].up
      ensures at == HostLookup ==> k.links[dev.id].ns == HOST
      ensures old(k.faults.script) == [] ==>
        && k.faults.script == []
        && (at == NsMove <==> Taken(links0, HOST, temp.name, dev.id))
        && (at == Complete <==>
              !Taken(links0, HOST, temp.name, dev.id) && Free(links0, HOST, links0[dev.id].alias, dev.id))
        && at != HostLookup
    {
      assert !Taken(k.links, container, temp.name, dev.id);
      TakenByOthers(links0, k.links, dev.id);
      var ok := k.SetNs(container, dev.id, HOST, true);
      TakenByOthers(links0, k.links, dev.id);
      if !ok {
        UndoInside(links0, dev, container, ifName, temp.up);
        return NsMove;
      }
      at := RestoreName(links0, dev, temp.name, container, ifName);
    }

    /** Back to `ifName` inside the container, and up if `up` says so. */
    method UndoInside(ghost links0: Links, dev: Handle, container: string, ifName: string, up: bool)
      requires dev.id in k.links && OthersKept(links0, k.links, dev.id) && ProperNames(links0)
      requires dev.id in links0 && links0[dev.id].ns == container && links0[dev.id].name == ifName
      requires k.links[dev.id].ns == container && !k.links[dev.id].up
      modifies k`links, k.faults
      ensures OthersKept(links0, k.links, dev.id) && ProperNames(k.links)
      ensures k.links[dev.id].ns == container && k.links[dev.id].name == ifName && k.links[dev.id].up == up
      ensures k.faults.script == old(k.faults.script)
    {
      TakenByOthers(links0, k.links, dev.id);
      assert !Taken(links0, container, ifName, dev.id);
      var _ := k.SetName(container, dev.id, ifName, false);
      if up { var _ := k.SetUp(container, dev.id, false); }
      TakenByOthers(links0, k.links, dev.id);
      RenameKeepsProper(links0, k.links, dev.id);
    }

    /** From the temporary name in the host namespace to the name in the alias. */
    method RestoreName(ghost links0: Links, dev: Handle, tempName: string, container: string, ifName: string)
      returns (at: Step)
      requires container != HOST && dev.id in k.links && OthersKept(links0, k.links, dev.id) && ProperNames(links0)
      requires dev.id in links0 && links0[dev.id].ns == container
      requires links0[dev.id].name == ifName && links0[dev.id].up == dev.up
      requires k.links[dev.id].ns == HOST && k.links[dev.id].name == tempName && !k.links[dev.id].up
      requires k.links[dev.id].alias == links0[dev.id].alias
      requires ValidName(tempName)
      requires !Taken(links0, HOST, tempName, dev.id) && !Taken(links0, container, tempName, dev.id)
      modifies k`links, k.faults
      ensures OthersKept(links0, k.links, dev.id)
      ensures at in {Complete, HostLookup, HostRename}
      ensures at == Complete ==>
        var l := k.links[dev.id];
        l.ns == HOST && l.name == links0[dev.id].alias && l.alias == l.name && !l.up
      ensures at == HostRename ==> Restored(links0, k.links, dev.id)
      ensures at == HostLookup ==> k.links[dev.id].ns == HOST
      ensures ProperNames(k.links)
      ensures old(k.faults.script) == [] ==>
        && k.faults.script == [] && at != HostLookup
        && (at == Complete <==> Free(links0, HOST, links0[dev.id].alias, dev.id))
    {
      var id := dev.id;
      TakenByOthers(links0, k.links, id);
      RenameKeepsProper(links0, k.links, id);
      assert k.links[id].ns == HOST && k.links[id].name == tempName;
      var tempDev := k.LinkByName(HOST, tempName, true);
      if tempDev.None? { return HostLookup; }
      OnlyOneOfThatName(k.links, id, tempDev);
      var ok := k.SetName(HOST, id, k.links[id].alias, true);
      TakenByOthers(links0, k.links, id);
      if ok {
        RenameKeepsProper(links0, k.links, id);
        return Complete;
      }
      var _ := k.SetNs(HOST, id, container, false);
      TakenByOthers(links0, k.links, id);
      UndoInside(links0, dev, container, ifName, dev.up);
      return HostRename;
    }

    /** In and out again: whatever the names, a device that makes both moves is back under the name it
        had, down as every move leaves it. */
    method RoundTrip(dev: Handle, container: string, ifName: string) returns (done: bool)
      requires ProperNames(k.links) && container != HOST
      requires dev.id in k.links && k.links[dev.id].ns == HOST
      requires dev == Handle(dev.id, k.links[dev.id].name, k.links[dev.id].up, k.links[dev.id].index)
      modifies k`links, k.faults
      ensures done ==>
        && OthersKept(old(k.links), k.links, dev.id)
        && k.links[dev.id].ns == HOST && k.links[dev.id].name == old(k.links)[dev.id].name && !k.links[dev.id].up
      ensures old(k.faults.script) == [] && !done ==>
        !Free(old(k.links), container, ifName, dev.id) || !TempNamesFree(old(k.links), dev.id, container)
    {
      var at := MoveIn(dev, container, ifName);
      if at != Complete { return false; }
      ghost var inside := k.links;
      assert !Taken(inside, container, ifName, dev.id);
      TakenByOthers(old(k.links), inside, dev.id);
      assert !Taken(old(k.links), HOST, dev.name, dev.id);
      var id;
      at, id := MoveOut(container, ifName);
      assert at != ContainerLookup ==> id == dev.id;
      if at != Complete { return false; }
      return true;
    }
  }
}
