/**
 The cell list of the eNodeB configuration: the check that RF ports and cell identities are
 not repeated, and the loop that completes each cell, drops secondary cells that are not in
 the list, and appends one PHY cell entry per cell. The frequency tables are parameters.
 */
module Cells {
  datatype Scell = Scell(cellId: nat, crossCarrier: bool, schedCellId: nat, ulAllowed: bool)

  datatype Cell = Cell(
    cellId: nat, rfPort: nat, pci: nat, rootSeqIdx: nat, dlEarfcn: nat, ulEarfcn: nat,
    dlFreqHz: real, ulFreqHz: real, scells: seq<Scell>)

  /** The base cell that every PHY cell starts from. */
  datatype BaseCell = BaseCell(id: nat, nofPrb: nat, nofPorts: nat)

  datatype PhyCell = PhyCell(
    cell: BaseCell, cellId: nat, rootSeqIdx: nat, rfPort: nat, numRaPreambles: nat,
    dlFreqHz: real, ulFreqHz: real)

  /** Centre frequencies in MHz by channel number, zero where there is none, and the paired uplink channel. */
  datatype Bands = Bands(fd: nat -> real, fu: nat -> real, ulEarfcn: nat -> nat)

  // ----- the repetition check -----

  ghost predicate PairwiseDistinct(cells: seq<Cell>) {
    forall i, j :: 0 <= i < j < |cells| ==> cells[i].rfPort != cells[j].rfPort && cells[i].cellId != cells[j].cellId
  }

  method CheckCells(cells: seq<Cell>) returns (ok: bool)
    ensures ok <==> PairwiseDistinct(cells)
  {
    for i := 0 to |cells|
      invariant forall a, b :: 0 <= a < i && a < b < |cells| ==>
        cells[a].rfPort != cells[b].rfPort && cells[a].cellId != cells[b].cellId
    {
      for j := i + 1 to |cells|
        invariant forall b :: i < b < j ==> cells[i].rfPort != cells[b].rfPort && cells[i].cellId != cells[b].cellId
      {
        if cells[i].rfPort == cells[j].rfPort {
          return false;
        }
        if cells[i].cellId == cells[j].cellId {
          return false;
        }
      }
    }
    return true;
  }

  // ----- secondary cells -----

  predicate Present(cells: seq<Cell>, id: nat) {
    exists i :: 0 <= i < |cells| && cells[i].cellId == id
  }

  /** The secondary cells that are in the cell list, in their order. */
  function Kept(scells: seq<Scell>, cells: seq<Cell>): seq<Scell> {
    if scells == [] then []
    else if Present(cells, scells[0].cellId) then [scells[0]] + Kept(scells[1..], cells)
    else Kept(scells[1..], cells)
  }

  predicate SelfReference(scells: seq<Scell>, id: nat) {
    exists i :: 0 <= i < |scells| && scells[i].cellId == id
  }

  lemma {:induction false} KeptAppend(a: seq<Scell>, b: seq<Scell>, cells: seq<Cell>)
    ensures Kept(a + b, cells) == Kept(a, cells) + Kept(b, cells)
  {
    hide Present;
    if a == [] {
      assert a + b == b;
    } else {
      KeptAppend(a[1..], b, cells);
      assert (a + b)[1..] == a[1..] + b;
    }
  }

  lemma KeptNext(list: seq<Scell>, n: nat, cells: seq<Cell>)
    requires n < |list|
    ensures Kept(list[..n + 1], cells) ==
            Kept(list[..n], cells) + if Present(cells, list[n].cellId) then [list[n]] else []
    ensures list[n..][1..] == list[n + 1..]
  {
    hide Present;
    assert list[..n + 1] == list[..n] + [list[n]];
    KeptAppend(list[..n], [list[n]], cells);
  }

  /** A secondary cell in the cell list is kept, behind what is kept of those before it. */
  lemma KeptAt(scells: seq<Scell>, k: nat, cells: seq<Cell>)
    requires k < |scells| && Present(cells, scells[k].cellId)
    ensures Kept(scells[..k], cells) + [scells[k]] <= Kept(scells, cells)
  {
    KeptNext(scells, k, cells);
    assert scells == scells[..k + 1] + scells[k + 1..];
    KeptAppend(scells[..k + 1], scells[k + 1..], cells);
  }

  /** And whatever is kept is one of these, at that place. */
  lemma {:induction false} KeptFrom(scells: seq<Scell>, cells: seq<Cell>, j: nat) returns (k: nat)
    requires j < |Kept(scells, cells)|
    ensures k < |scells| && Present(cells, scells[k].cellId) && Kept(scells, cells)[j] == scells[k]
    ensures |Kept(scells[..k], cells)| == j
  {
    hide Present;
    var n := |scells| - 1;
    KeptNext(scells, n, cells);
    assert scells[..n + 1] == scells;
    if j < |Kept(scells[..n], cells)| {
      k := KeptFrom(scells[..n], cells, j);
      assert scells[..n][..k] == scells[..k];
    } else {
      k := n;
    }
  }

  ghost predicate FirstSelf(scells: seq<Scell>, r: nat, id: nat) {
    r < |scells| && scells[r].cellId == id && forall j :: 0 <= j < r ==> scells[j].cellId != id
  }

  // ----- one cell -----

  function WithUlEarfcn(c: Cell, bands: Bands): Cell {
    if c.ulFreqHz > 0.0 || c.ulEarfcn != 0 then c else c.(ulEarfcn := bands.ulEarfcn(c.dlEarfcn))
  }

  function DlFreq(c: Cell, bands: Bands): real {
    if c.dlFreqHz > 0.0 then c.dlFreqHz else 1000000.0 * bands.fd(c.dlEarfcn)
  }

  function UlFreq(c: Cell, bands: Bands): real {
    if c.ulFreqHz > 0.0 then c.ulFreqHz else 1000000.0 * bands.fu(WithUlEarfcn(c, bands).ulEarfcn)
  }

  /** The cell can be set up: both frequencies are known and it is not its own secondary cell. */
  predicate Usable(c: Cell, bands: Bands) {
    DlFreq(c, bands) != 0.0 && UlFreq(c, bands) != 0.0 && !SelfReference(c.scells, c.cellId)
  }

  function Completed(c: Cell, cells: seq<Cell>, bands: Bands): Cell {
    WithUlEarfcn(c, bands).(scells := Kept(c.scells, cells))
  }

  function PhyOf(c: Cell, base: BaseCell, preambles: nat, bands: Bands): PhyCell {
    PhyCell(base.(id := c.pci), c.cellId, c.rootSeqIdx, c.rfPort, preambles, DlFreq(c, bands), UlFreq(c, bands))
  }

  /** The uplink channel of a cell without an uplink frequency: its own, or the one paired with its downlink. */
  function UplinkChannel(c: Cell, bands: Bands): nat {
    if c.ulEarfcn != 0 then c.ulEarfcn else bands.ulEarfcn(c.dlEarfcn)
  }

  /**
   The PHY entry of a cell, field by field: identity, port, root sequence and physical cell identity
   are those of the cell, preambles and the rest of the cell those of the base configuration, and a
   frequency is the configured one or that of the channel, downlink from the downlink table and
   uplink from the uplink table, in Hz.
   */
  ghost predicate EntryFor(e: PhyCell, c: Cell, base: BaseCell, preambles: nat, bands: Bands) {
    && e.cellId == c.cellId && e.rfPort == c.rfPort && e.rootSeqIdx == c.rootSeqIdx
    && e.numRaPreambles == preambles
    && e.cell.id == c.pci && e.cell.nofPrb == base.nofPrb && e.cell.nofPorts == base.nofPorts
    && (if c.dlFreqHz > 0.0 then e.dlFreqHz == c.dlFreqHz else e.dlFreqHz == 1000000.0 * bands.fd(c.dlEarfcn))
    && (if c.ulFreqHz > 0.0 then e.ulFreqHz == c.ulFreqHz
        else e.ulFreqHz == 1000000.0 * bands.fu(UplinkChannel(c, bands)))
  }

  lemma UsableMeans(c: Cell, bands: Bands)
    ensures Usable(c, bands) <==>
      && (c.dlFreqHz > 0.0 || bands.fd(c.dlEarfcn) != 0.0)
      && (c.ulFreqHz > 0.0 || bands.fu(UplinkChannel(c, bands)) != 0.0)
      && (forall j :: 0 <= j < |c.scells| ==> c.scells[j].cellId != c.cellId)
  {
  }

  lemma UsableAll(cells: seq<Cell>, bands: Bands)
    ensures (forall i :: 0 <= i < |cells| ==> Usable(cells[i], bands)) <==>
      && (forall i :: 0 <= i < |cells| ==>
        && (cells[i].dlFreqHz > 0.0 || bands.fd(cells[i].dlEarfcn) != 0.0)
        && (cells[i].ulFreqHz > 0.0 || bands.fu(UplinkChannel(cells[i], bands)) != 0.0))
      && (forall i, j :: 0 <= i < |cells| && 0 <= j < |cells[i].scells| ==>
        cells[i].scells[j].cellId != cells[i].cellId)
  {
    forall i | 0 <= i < |cells| { UsableMeans(cells[i], bands); }
  }

  lemma EntryMeans(c: Cell, base: BaseCell, preambles: nat, bands: Bands)
    ensures EntryFor(PhyOf(c, base, preambles, bands), c, base, preambles, bands)
  {
  }

  /** The downlink carrier does not depend on the uplink table, nor the uplink carrier on the downlink table. */
  lemma TablesApart(c: Cell, base: BaseCell, preambles: nat, a: Bands, b: Bands)
    requires a.ulEarfcn == b.ulEarfcn
    ensures a.fd == b.fd ==> PhyOf(c, base, preambles, a).dlFreqHz == PhyOf(c, base, preambles, b).dlFreqHz
    ensures a.fu == b.fu ==> PhyOf(c, base, preambles, a).ulFreqHz == PhyOf(c, base, preambles, b).ulFreqHz
  {
  }

  /** `rrc_cfg_->cell_list` and `phy_cfg_->phy_cell_cfg`, both changed in place. */
  class EnbConfig {
    var cells: seq<Cell>
    var phy: seq<PhyCell>

    constructor (cells: seq<Cell>)
      ensures this.cells == cells && phy == []
    {
      this.cells := cells;
      phy := [];
    }

    /** Erase the secondary cells of cell `k` that are unknown, up to the first reference to itself. */
    method FilterScells(k: nat) returns (ok: bool)
      requires k < |cells|
      modifies this`cells
      ensures |cells| == |old(cells)|
      ensures cells == old(cells)[k := old(cells)[k].(scells := cells[k].scells)]
      ensures ok <==> !SelfReference(old(cells)[k].scells, old(cells)[k].cellId)
      ensures ok ==> cells[k].scells == Kept(old(cells)[k].scells, old(cells))
      ensures !ok ==> exists r: nat ::
        && FirstSelf(old(cells)[k].scells, r, old(cells)[k].cellId)
        && cells[k].scells == Kept(old(cells)[k].scells[..r], old(cells)) + old(cells)[k].scells[r..]
    {
      ghost var was := cells;
      ghost var list := cells[k].scells;
      var id := cells[k].cellId;
      var i := 0;
      ghost var read := 0;
      assert list[..0] == [];
      while i < |cells[k].scells|
        invariant |cells| == |was| && cells == was[k := was[k].(scells := cells[k].scells)]
        invariant i <= |cells[k].scells| && read <= |list|
        invariant cells[k].scells[..i] == Kept(list[..read], was) && cells[k].scells[i..] == list[read..]
        invariant forall j :: 0 <= j < read ==> list[j].cellId != id
        decreases |list| - read
      {
        var scells := cells[k].scells;
        assert scells[i] == scells[i..][0] == list[read];
        KeptNext(list, read, was);
        SamePresence(was, k, scells, list[read].cellId);
        if !Present(cells, scells[i].cellId) {
          cells := cells[k := cells[k].(scells := scells[..i] + scells[i + 1..])];
          assert cells[k].scells[i..] == scells[i..][1..] == list[read..][1..];
        } else if scells[i].cellId == id {
          assert FirstSelf(list, read, id) && scells == scells[..i] + scells[i..];
          return false;
        } else {
          i := i + 1;
          assert scells[..i] == scells[..i - 1] + [scells[i - 1]];
          assert scells[i..] == scells[i - 1..][1..] == list[read..][1..];
        }
        read := read + 1;
      }
      assert list[..read] == list by { assert list[read..] == []; }
      return true;
    }

    /** The body of the loop for cell `k`, up to the PHY entry it yields. */
    method CompleteCell(k: nat, base: BaseCell, preambles: nat, bands: Bands) returns (ok: bool, entry: PhyCell)
      requires k < |cells|
      modifies this`cells
      ensures |cells| == |old(cells)|
      ensures cells == old(cells)[k := old(cells)[k].(ulEarfcn := cells[k].ulEarfcn, scells := cells[k].scells)]
      ensures ok <==> Usable(old(cells)[k], bands)
      ensures ok ==> cells[k] == Completed(old(cells)[k], old(cells), bands)
      ensures ok ==> entry == PhyOf(old(cells)[k], base, preambles, bands)
      ensures ok <==>
        && (old(cells)[k].dlFreqHz > 0.0 || bands.fd(old(cells)[k].dlEarfcn) != 0.0)
        && (old(cells)[k].ulFreqHz > 0.0 || bands.fu(UplinkChannel(old(cells)[k], bands)) != 0.0)
        && (forall j :: 0 <= j < |old(cells)[k].scells| ==> old(cells)[k].scells[j].cellId != old(cells)[k].cellId)
      ensures ok ==> EntryFor(entry, old(cells)[k], base, preambles, bands)
    {
      hide Kept;
      UsableMeans(cells[k], bands);
      EntryMeans(cells[k], base, preambles, bands);
      hide SelfReference;
      var c := cells[k];
      entry := PhyCell(base.(id := c.pci), c.cellId, c.rootSeqIdx, c.rfPort, preambles, 0.0, 0.0);
      if c.dlFreqHz > 0.0 {
        entry := entry.(dlFreqHz := c.dlFreqHz);
      } else {
        entry := entry.(dlFreqHz := 1000000.0 * bands.fd(c.dlEarfcn));
        if entry.dlFreqHz == 0.0 {
          return false, entry;
        }
      }
      if c.ulFreqHz > 0.0 {
        entry := entry.(ulFreqHz := c.ulFreqHz);
      } else {
        if c.ulEarfcn == 0 {
          cells := cells[k := c.(ulEarfcn := bands.ulEarfcn(c.dlEarfcn))];
        }
        entry := entry.(ulFreqHz := 1000000.0 * bands.fu(cells[k].ulEarfcn));
        if entry.ulFreqHz == 0.0 {
          return false, entry;
        }
      }
      SameKept(old(cells), cells, c.scells);
      ok := FilterScells(k);
    }

    /**
     The loop over the cells. It ends well exactly when every cell is usable; then every cell is
     completed against the list it started with, and one PHY entry per cell is appended in order.
     Otherwise it stops at the first unusable cell: the cells and PHY entries before it are as on
     success, the cells behind it are untouched, and of it only the uplink channel and the
     secondary cells may have changed.
     */
    method Build(base: BaseCell, preambles: nat, bands: Bands) returns (ok: bool, done: nat)
      modifies this
      ensures |cells| == |old(cells)| && done <= |cells|
      ensures ok <==> done == |cells|
      ensures forall i :: 0 <= i < done ==> Usable(old(cells)[i], bands)
      ensures !ok ==> !Usable(old(cells)[done], bands)
      ensures forall i :: 0 <= i < done ==> cells[i] == Completed(old(cells)[i], old(cells), bands)
      ensures !ok ==> cells[done] == old(cells)[done].(ulEarfcn := cells[done].ulEarfcn, scells := cells[done].scells)
      ensures forall i :: done < i < |cells| ==> cells[i] == old(cells)[i]
      ensures |phy| == |old(phy)| + done && phy[..|old(phy)|] == old(phy)
      ensures forall i :: 0 <= i < done ==> phy[|old(phy)| + i] == PhyOf(old(cells)[i], base, preambles, bands)
    {
      hide Usable, PhyOf, Kept;
      done := 0;
      while done < |cells|
        invariant |cells| == |old(cells)| && done <= |cells|
        invariant forall i :: 0 <= i < done ==> Usable(old(cells)[i], bands)
        invariant forall i :: 0 <= i < done ==> cells[i] == Completed(old(cells)[i], old(cells), bands)
        invariant forall i :: done <= i < |cells| ==> cells[i] == old(cells)[i]
        invariant |phy| == |old(phy)| + done && phy[..|old(phy)|] == old(phy)
        invariant forall i :: 0 <= i < done ==> phy[|old(phy)| + i] == PhyOf(old(cells)[i], base, preambles, bands)
      {
        SameKept(old(cells), cells, cells[done].scells);
        var entry;
        ok, entry := CompleteCell(done, base, preambles, bands);
        if !ok {
          return;
        }
        phy := phy + [entry];
        done := done + 1;
      }
      ok := true;
    }

    /**
     The check, the refusal of an empty list and the loop together, from no PHY entries. When all
     end well, RF ports and cell identities are pairwise distinct, every secondary cell is another
     cell of the list, and there is one PHY entry per cell, in order and under its identity and port.
     */
    method Configure(base: BaseCell, preambles: nat, bands: Bands) returns (ok: bool)
      requires phy == []
      modifies this
      ensures ok <==>
        && old(cells) != [] && PairwiseDistinct(old(cells))
        && (forall i :: 0 <= i < |old(cells)| ==>
          && (old(cells)[i].dlFreqHz > 0.0 || bands.fd(old(cells)[i].dlEarfcn) != 0.0)
          && (old(cells)[i].ulFreqHz > 0.0 || bands.fu(UplinkChannel(old(cells)[i], bands)) != 0.0))
        && (forall i, j :: 0 <= i < |old(cells)| && 0 <= j < |old(cells)[i].scells| ==>
          old(cells)[i].scells[j].cellId != old(cells)[i].cellId)
      ensures ok ==> PairwiseDistinct(cells) && ScellsResolve(cells)
      ensures ok ==> |phy| == |cells| == |old(cells)| && forall i :: 0 <= i < |phy| ==>
        && EntryFor(phy[i], old(cells)[i], base, preambles, bands)
        && cells[i] == old(cells)[i].(ulEarfcn := cells[i].ulEarfcn, scells := Kept(old(cells)[i].scells, old(cells)))
        && cells[i].ulEarfcn == if old(cells)[i].ulFreqHz > 0.0 then old(cells)[i].ulEarfcn
          else UplinkChannel(old(cells)[i], bands)
    {
      UsableAll(cells, bands);
      ok := CheckCells(cells);
      if |cells| == 0 {
        return false;
      }
      if ok {
        hide Usable, Kept, ScellsResolve, PhyOf, Completed, PairwiseDistinct;
        var done;
        ok, done := Build(base, preambles, bands);
        if ok {
          CompletedResolve(old(cells), cells, bands);
          PhyMatches(old(cells), cells, phy, base, preambles, bands);
        }
      }
    }
  }

  lemma SamePresence(cells: seq<Cell>, k: nat, scells: seq<Scell>, id: nat)
    requires k < |cells|
    ensures Present(cells[k := cells[k].(scells := scells)], id) == Present(cells, id)
  {
    var next := cells[k := cells[k].(scells := scells)];
    assert forall i :: 0 <= i < |cells| ==> next[i].cellId == cells[i].cellId;
  }

  /** Only the identities in the list matter to what is kept. */
  lemma {:induction false} SameKept(cells: seq<Cell>, next: seq<Cell>, scells: seq<Scell>)
    requires |next| == |cells| && forall i :: 0 <= i < |cells| ==> next[i].cellId == cells[i].cellId
    ensures Kept(scells, next) == Kept(scells, cells)
  {
    if scells != [] {
      SameKept(cells, next, scells[1..]);
      SameIds(cells, next, scells[0].cellId);
    }
  }

  lemma SameIds(cells: seq<Cell>, next: seq<Cell>, id: nat)
    requires |next| == |cells| && forall i :: 0 <= i < |cells| ==> next[i].cellId == cells[i].cellId
    ensures Present(next, id) == Present(cells, id)
  {
  }

  /** Every secondary cell is in the list and is not the cell it belongs to. */
  ghost predicate ScellsResolve(cells: seq<Cell>) {
    forall i, j :: 0 <= i < |cells| && 0 <= j < |cells[i].scells| ==>
      cells[i].scells[j].cellId != cells[i].cellId && Present(cells, cells[i].scells[j].cellId)
  }

  lemma PhyMatches(was: seq<Cell>, cells: seq<Cell>, phy: seq<PhyCell>, base: BaseCell, preambles: nat, bands: Bands)
    requires |cells| == |was| == |phy| && PairwiseDistinct(was)
    requires forall i :: 0 <= i < |was| ==> cells[i] == Completed(was[i], was, bands)
    requires forall i :: 0 <= i < |was| ==> phy[i] == PhyOf(was[i], base, preambles, bands)
    ensures PairwiseDistinct(cells)
    ensures forall i :: 0 <= i < |phy| ==>
      && EntryFor(phy[i], was[i], base, preambles, bands)
      && cells[i] == was[i].(ulEarfcn := cells[i].ulEarfcn, scells := Kept(was[i].scells, was))
      && cells[i].ulEarfcn == if was[i].ulFreqHz > 0.0 then was[i].ulEarfcn else UplinkChannel(was[i], bands)
  {
    hide Kept;
    forall i | 0 <= i < |phy|
      ensures EntryFor(phy[i], was[i], base, preambles, bands)
    {
      EntryMeans(was[i], base, preambles, bands);
    }
    assert forall i :: 0 <= i < |was| ==> cells[i].cellId == was[i].cellId && cells[i].rfPort == was[i].rfPort;
  }

  lemma CompletedResolve(was: seq<Cell>, cells: seq<Cell>, bands: Bands)
    requires |cells| == |was|
    requires forall i :: 0 <= i < |was| ==> Usable(was[i], bands) && cells[i] == Completed(was[i], was, bands)
    ensures ScellsResolve(cells)
  {
    forall i, j | 0 <= i < |cells| && 0 <= j < |cells[i].scells|
      ensures cells[i].scells[j].cellId != cells[i].cellId && Present(cells, cells[i].scells[j].cellId)
    {
      assert Usable(was[i], bands);
      var k := KeptFrom(was[i].scells, was, j);
      SameIds(was, cells, cells[i].scells[j].cellId);
    }
  }
}
