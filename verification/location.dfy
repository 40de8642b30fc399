/**
 * H3 cell helpers: the cell-string validity check and the neighbour-ring
 * expansion.  The H3 library is not modelled; its three operations arrive as
 * an `H3` value, and every fact about them a proof needs is a stated
 * precondition.
 */
module Location {
  import opened Wrappers
  import opened Scalars
  import opened Text

  /** An H3 cell index (a 64-bit integer inside the library). */
  datatype CellIndex = CellIndex(bits: u64)

  /**
   * The library operations the helpers call: parsing a cell string,
   * rendering a cell as a string, and the disk of all cells within a grid
   * distance (centre included, in the library's order).
   */
  datatype H3 = H3(
    parse: string -> Option<CellIndex>,
    render: CellIndex -> string,
    gridDisk: (CellIndex, u32) -> seq<CellIndex>)

  /** Length of a resolution-7 cell string, in bytes. */
  const CELL_STRING_BYTES := 15

  /**
   * `is_valid_cell`: a 15-byte length check, then an H3 parse.  For ASCII
   * input (every well-formed cell string) the byte count is the character
   * count.
   */
  function IsValidCell(h3: H3, cellStr: string): (valid: bool)
    ensures ByteLen(cellStr) != CELL_STRING_BYTES ==> !valid
    ensures valid ==> h3.parse(cellStr).Some?
    ensures valid ==> 4 <= |cellStr| <= 15
    ensures AllAscii(cellStr) ==> (valid <==> |cellStr| == 15 && h3.parse(cellStr).Some?)
  {
    ByteLenIsCharCount(cellStr);
    if ByteLen(cellStr) != CELL_STRING_BYTES then false
    else h3.parse(cellStr).Some?
  }

  /**
   * The cells of `disk` rendered as strings, in order, leaving out every
   * rendering equal to `centre`.
   */
  function RenderedExcept(render: CellIndex -> string, disk: seq<CellIndex>, centre: string): (r: seq<string>)
    ensures |r| <= |disk|
    ensures forall j :: 0 <= j < |r| ==> r[j] != centre
    ensures forall j :: 0 <= j < |r| ==> exists i :: 0 <= i < |disk| && render(disk[i]) == r[j]
    ensures forall i :: 0 <= i < |disk| && render(disk[i]) != centre ==> render(disk[i]) in r
  {
    if |disk| == 0 then []
    else
      var prefix := disk[..|disk| - 1];
      var earlier := RenderedExcept(render, prefix, centre);
      var last := render(disk[|disk| - 1]);
      assert forall i :: 0 <= i < |prefix| ==> prefix[i] == disk[i];
      if last == centre then earlier else earlier + [last]
  }

  /** `get_neighbors`, stated as a value: the list the loop builds. */
  function NeighborList(h3: H3, cellStr: string, rings: u32): (cells: seq<string>)
    ensures |cells| >= 1 && cells[0] == cellStr
    ensures forall j :: 1 <= j < |cells| ==> cells[j] != cellStr
    ensures h3.parse(cellStr).None? || rings == 0 ==> cells == [cellStr]
  {
    match h3.parse(cellStr)
    case None => [cellStr]
    case Some(cell) =>
      if rings > 0 then [cellStr] + RenderedExcept(h3.render, h3.gridDisk(cell, rings), cellStr)
      else [cellStr]
  }

  /**
   * `get_neighbors`: the input string first, then the rendering of every cell
   * of the ring-`rings` disk that differs from the input string, in disk order.
   */
  method GetNeighbors(h3: H3, cellStr: string, rings: u32) returns (cells: seq<string>)
    ensures cells == NeighborList(h3, cellStr, rings)
  {
    var parsed := h3.parse(cellStr);
    if parsed.None? {
      return [cellStr];
    }
    var cell := parsed.value;
    cells := [cellStr];
    if rings > 0 {
      var disk := h3.gridDisk(cell, rings);
      var i := 0;
      while i < |disk|
        invariant 0 <= i <= |disk|
        invariant cells == [cellStr] + RenderedExcept(h3.render, disk[..i], cellStr)
      {
        var neighborStr := h3.render(disk[i]);
        RenderedExceptStep(h3.render, disk, i, cellStr);
        if neighborStr != cellStr {
          cells := cells + [neighborStr];
        }
        i := i + 1;
      }
      assert disk[..|disk|] == disk;
    }
  }

  /** One more disk cell extends the rendered list by its rendering, unless that is the centre. */
  lemma RenderedExceptStep(render: CellIndex -> string, disk: seq<CellIndex>, i: nat, centre: string)
    requires i < |disk|
    ensures RenderedExcept(render, disk[..i + 1], centre)
      == RenderedExcept(render, disk[..i], centre) + (if render(disk[i]) == centre then [] else [render(disk[i])])
  {
    assert disk[..i + 1][..i] == disk[..i];
  }

  /** The input string occurs in the neighbour list exactly once, for every input. */
  lemma CentreOccursOnce(h3: H3, cellStr: string, rings: u32)
    ensures multiset(NeighborList(h3, cellStr, rings))[cellStr] == 1
  {
    var cells := NeighborList(h3, cellStr, rings);
    var rest := cells[1..];
    assert cells == [cellStr] + rest;
    assert cellStr !in rest by {
      forall j | 0 <= j < |rest| ensures rest[j] != cellStr {
        assert rest[j] == cells[j + 1];
      }
    }
    assert multiset(cells) == multiset([cellStr]) + multiset(rest);
  }

  /** Number of cells of `disk` whose rendering equals `centre`. */
  function Hits(render: CellIndex -> string, disk: seq<CellIndex>, centre: string): nat {
    if |disk| == 0 then 0
    else Hits(render, disk[..|disk| - 1], centre) + (if render(disk[|disk| - 1]) == centre then 1 else 0)
  }

  /** Exactly the disk cells rendering to the centre are dropped. */
  lemma {:induction false} RenderedExceptLength(render: CellIndex -> string, disk: seq<CellIndex>, centre: string)
    ensures |RenderedExcept(render, disk, centre)| + Hits(render, disk, centre) == |disk|
  {
    if |disk| > 0 {
      RenderedExceptLength(render, disk[..|disk| - 1], centre);
    }
  }

  /** No two cells of the disk render to the same string. */
  predicate DistinctRenderings(render: CellIndex -> string, disk: seq<CellIndex>) {
    forall i, j :: 0 <= i < j < |disk| ==> render(disk[i]) != render(disk[j])
  }

  predicate RendersTo(render: CellIndex -> string, disk: seq<CellIndex>, s: string) {
    exists i :: 0 <= i < |disk| && render(disk[i]) == s
  }

  /** With distinct renderings, at most one disk cell renders to the centre. */
  lemma {:induction false} HitsOfDistinct(render: CellIndex -> string, disk: seq<CellIndex>, centre: string)
    requires DistinctRenderings(render, disk)
    ensures Hits(render, disk, centre) == if RendersTo(render, disk, centre) then 1 else 0
  {
    if |disk| > 0 {
      var n := |disk| - 1;
      var prefix := disk[..n];
      assert forall i :: 0 <= i < n ==> prefix[i] == disk[i];
      HitsOfDistinct(render, prefix, centre);
      if render(disk[n]) == centre {
        assert !RendersTo(render, prefix, centre);
      } else {
        assert RendersTo(render, disk, centre) ==> RendersTo(render, prefix, centre);
      }
    }
  }

  /**
   * When the disk's renderings are distinct and one of them is the input
   * string itself, the neighbour list has exactly as many entries as the disk.
   */
  lemma RingLength(h3: H3, cellStr: string, cell: CellIndex, rings: u32)
    requires h3.parse(cellStr) == Some(cell) && rings > 0
    requires DistinctRenderings(h3.render, h3.gridDisk(cell, rings))
    requires RendersTo(h3.render, h3.gridDisk(cell, rings), cellStr)
    ensures |NeighborList(h3, cellStr, rings)| == |h3.gridDisk(cell, rings)|
  {
    var disk := h3.gridDisk(cell, rings);
    RenderedExceptLength(h3.render, disk, cellStr);
    HitsOfDistinct(h3.render, disk, cellStr);
  }

  /** Ring 1: a seven-cell disk containing the centre gives the centre and its six neighbours. */
  lemma RingOneHasSeven(h3: H3, cellStr: string, cell: CellIndex)
    requires h3.parse(cellStr) == Some(cell)
    requires |h3.gridDisk(cell, 1)| == 7
    requires DistinctRenderings(h3.render, h3.gridDisk(cell, 1))
    requires RendersTo(h3.render, h3.gridDisk(cell, 1), cellStr)
    ensures |NeighborList(h3, cellStr, 1)| == 7
    ensures cellStr in NeighborList(h3, cellStr, 1)
  {
    RingLength(h3, cellStr, cell, 1);
  }

  predicate NoRepeats<T(==)>(s: seq<T>) {
    forall j, k :: 0 <= j < k < |s| ==> s[j] != s[k]
  }

  /** Appending an element absent from a repeat-free sequence keeps it repeat-free. */
  lemma AppendFresh<T>(s: seq<T>, x: T)
    requires NoRepeats(s) && x !in s
    ensures NoRepeats(s + [x])
  {
    var t := s + [x];
    forall j, k | 0 <= j < k < |t| ensures t[j] != t[k] {
      assert t[j] == s[j];
      if k < |s| { assert t[k] == s[k]; }
    }
  }

  /** Prepending an element absent from a repeat-free sequence keeps it repeat-free. */
  lemma PrependFresh<T>(x: T, s: seq<T>)
    requires NoRepeats(s) && x !in s
    ensures NoRepeats([x] + s)
  {
    var t := [x] + s;
    forall j, k | 0 <= j < k < |t| ensures t[j] != t[k] {
      assert t[k] == s[k - 1];
      if j > 0 { assert t[j] == s[j - 1]; }
    }
  }

  /** Distinct renderings give a neighbour list without repeats. */
  lemma {:induction false} RenderedExceptDistinct(render: CellIndex -> string, disk: seq<CellIndex>, centre: string)
    requires DistinctRenderings(render, disk)
    ensures NoRepeats(RenderedExcept(render, disk, centre))
  {
    if |disk| > 0 {
      var n := |disk| - 1;
      var prefix := disk[..n];
      assert DistinctRenderings(render, prefix) by {
        forall i, j | 0 <= i < j < |prefix| ensures render(prefix[i]) != render(prefix[j]) {
          assert prefix[i] == disk[i] && prefix[j] == disk[j];
        }
      }
      RenderedExceptDistinct(render, prefix, centre);
      var earlier := RenderedExcept(render, prefix, centre);
      var last := render(disk[n]);
      assert last !in earlier by {
        forall j | 0 <= j < |earlier| ensures earlier[j] != last {
          var i :| 0 <= i < |prefix| && render(prefix[i]) == earlier[j];
          assert prefix[i] == disk[i];
        }
      }
      assert RenderedExcept(render, disk, centre) == if last == centre then earlier else earlier + [last];
      if last != centre {
        AppendFresh(earlier, last);
      }
    }
  }

  /**
   * The neighbour list never repeats an entry: trivially when the string does
   * not parse, and otherwise when the disk's renderings are distinct.
   */
  lemma NeighborListDistinct(h3: H3, cellStr: string, rings: u32)
    requires h3.parse(cellStr).Some? && rings > 0 ==> DistinctRenderings(h3.render, h3.gridDisk(h3.parse(cellStr).value, rings))
    ensures NoRepeats(NeighborList(h3, cellStr, rings))
  {
    match h3.parse(cellStr)
    case None =>
    case Some(cell) =>
      if rings > 0 {
        var rest := RenderedExcept(h3.render, h3.gridDisk(cell, rings), cellStr);
        RenderedExceptDistinct(h3.render, h3.gridDisk(cell, rings), cellStr);
        assert cellStr !in rest;
        PrependFresh(cellStr, rest);
      }
  }

  /** A disk none of whose cells renders to the centre string drops nothing. */
  lemma {:induction false} NoHitsWhenAbsent(render: CellIndex -> string, disk: seq<CellIndex>, centre: string)
    requires !RendersTo(render, disk, centre)
    ensures Hits(render, disk, centre) == 0
  {
    if |disk| > 0 {
      var prefix := disk[..|disk| - 1];
      assert forall i :: 0 <= i < |prefix| ==> prefix[i] == disk[i];
      NoHitsWhenAbsent(render, prefix, centre);
    }
  }

  predicate HasUpperHexLetter(s: string) {
    exists i :: 0 <= i < |s| && 'A' <= s[i] <= 'F'
  }

  /**
   * `get_neighbors` recognises the centre by comparing strings.  The H3
   * library parses either letter case but renders lower case, so a centre
   * spelled with an upper-case letter is not recognised in the disk: it is
   * listed a second time, under its rendered spelling, and a seven-cell ring
   * yields eight entries.
   */
  lemma UpperCaseCentreListedTwice(h3: H3, cellStr: string, cell: CellIndex)
    requires h3.parse(cellStr) == Some(cell)
    requires HasUpperHexLetter(cellStr)
    requires forall c :: !HasUpperHexLetter(h3.render(c))
    requires |h3.gridDisk(cell, 1)| == 7 && cell in h3.gridDisk(cell, 1)
    ensures |NeighborList(h3, cellStr, 1)| == 8
    ensures h3.render(cell) != cellStr && h3.render(cell) in NeighborList(h3, cellStr, 1)
  {
    var disk := h3.gridDisk(cell, 1);
    assert !HasUpperHexLetter(h3.render(cell));
    assert !RendersTo(h3.render, disk, cellStr) by {
      forall i | 0 <= i < |disk| ensures h3.render(disk[i]) != cellStr {
        assert !HasUpperHexLetter(h3.render(disk[i]));
      }
    }
    NoHitsWhenAbsent(h3.render, disk, cellStr);
    RenderedExceptLength(h3.render, disk, cellStr);
    var k :| 0 <= k < |disk| && disk[k] == cell;
    assert h3.render(disk[k]) in RenderedExcept(h3.render, disk, cellStr);
  }

  /** The disk in order, without the centre cell, compared as cells. */
  function OtherCells(disk: seq<CellIndex>, cell: CellIndex): (others: seq<CellIndex>)
    ensures |others| + multiset(disk)[cell] == |disk|
    ensures cell !in others
    ensures forall c :: c in others <==> c in disk && c != cell
  {
    if |disk| == 0 then []
    else
      var prefix := disk[..|disk| - 1];
      var last := disk[|disk| - 1];
      assert disk == prefix + [last];
      assert multiset(disk) == multiset(prefix) + multiset{last};
      OtherCells(prefix, cell) + (if last == cell then [] else [last])
  }

  function RenderAll(render: CellIndex -> string, cells: seq<CellIndex>): (strs: seq<string>)
    ensures |strs| == |cells|
    ensures forall j :: 0 <= j < |cells| ==> strs[j] == render(cells[j])
  {
    seq(|cells|, j requires 0 <= j < |cells| => render(cells[j]))
  }

  /**
   * The neighbour list with the centre recognised as a cell rather than by
   * spelling: the input string, then the rendering of every other disk cell.
   */
  function NeighborsByCell(h3: H3, cellStr: string, rings: u32): (cells: seq<string>)
    ensures |cells| >= 1 && cells[0] == cellStr
    ensures h3.parse(cellStr).None? || rings == 0 ==> cells == [cellStr]
  {
    match h3.parse(cellStr)
    case None => [cellStr]
    case Some(cell) =>
      if rings > 0 then [cellStr] + RenderAll(h3.render, OtherCells(h3.gridDisk(cell, rings), cell))
      else [cellStr]
  }

  /**
   * Whatever the spelling of the centre, a disk that lists the centre once
   * gives exactly as many entries as the disk has cells, and the entries after
   * the first are the renderings of the disk's other cells, in disk order.
   */
  lemma NeighborsByCellRingLength(h3: H3, cellStr: string, cell: CellIndex, rings: u32)
    requires h3.parse(cellStr) == Some(cell) && rings > 0
    requires multiset(h3.gridDisk(cell, rings))[cell] == 1
    ensures |NeighborsByCell(h3, cellStr, rings)| == |h3.gridDisk(cell, rings)|
    ensures NeighborsByCell(h3, cellStr, rings)[1..] == RenderAll(h3.render, OtherCells(h3.gridDisk(cell, rings), cell))
    ensures cell !in OtherCells(h3.gridDisk(cell, rings), cell)
  {
    var others := OtherCells(h3.gridDisk(cell, rings), cell);
    assert NeighborsByCell(h3, cellStr, rings) == [cellStr] + RenderAll(h3.render, others);
  }

  /**
   * For a centre spelled as the library renders it, where a disk cell renders
   * to that spelling only if it is the centre, the corrected list and the
   * list `get_neighbors` builds coincide.
   */
  lemma {:induction false} NeighborsByCellAgreesOnCanonicalSpelling(h3: H3, cellStr: string, cell: CellIndex, rings: u32)
    requires h3.parse(cellStr) == Some(cell)
    requires forall c :: c in h3.gridDisk(cell, rings) ==> (h3.render(c) == cellStr <==> c == cell)
    ensures NeighborsByCell(h3, cellStr, rings) == NeighborList(h3, cellStr, rings)
  {
    if rings > 0 {
      RenderedExceptIsRenderOthers(h3.render, h3.gridDisk(cell, rings), cell, cellStr);
    }
  }

  lemma RenderAllAppend(render: CellIndex -> string, cells: seq<CellIndex>, x: CellIndex)
    ensures RenderAll(render, cells + [x]) == RenderAll(render, cells) + [render(x)]
  {
  }

  lemma {:induction false} RenderedExceptIsRenderOthers(render: CellIndex -> string, disk: seq<CellIndex>, cell: CellIndex, centre: string)
    requires forall c :: c in disk ==> (render(c) == centre <==> c == cell)
    ensures RenderedExcept(render, disk, centre) == RenderAll(render, OtherCells(disk, cell))
  {
    if |disk| > 0 {
      var prefix := disk[..|disk| - 1];
      var last := disk[|disk| - 1];
      assert forall c :: c in prefix ==> c in disk;
      RenderedExceptIsRenderOthers(render, prefix, cell, centre);
      assert last in disk;
      var before := OtherCells(prefix, cell);
      var earlier := RenderedExcept(render, prefix, centre);
      assert RenderedExcept(render, disk, centre) == if render(last) == centre then earlier else earlier + [render(last)];
      assert OtherCells(disk, cell) == if last == cell then before else before + [last];
      if last != cell {
        RenderAllAppend(render, before, last);
      }
    }
  }
}
