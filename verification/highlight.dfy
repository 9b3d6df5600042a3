/** Cells to emphasise around the selection: its peers, and every other
    cell showing the selected value. */
module Highlight {
  import opened Board

  /** The peers of the selected cell, built as the game builds them: its
      whole row, column and box, with the cell itself removed. Nothing is
      highlighted without a selection. */
  function HighlightedCells(selected: Option<Cell>): (hs: set<Coord>)
    ensures selected.None? ==> hs == {}
    ensures selected.Some? ==> forall q :: q in hs <==> InGrid(q) && Peer(q, selected.value)
    ensures selected.Some? ==> |hs| == 20
  {
    match selected
    case None => {}
    case Some(at) =>
      var rowCells := set j | 0 <= j < GridSize :: Coord(at.row, j);
      var colCells := set i | 0 <= i < GridSize :: Coord(i, at.col);
      var boxCells := set i, j | BoxStart(at.row) <= i < BoxStart(at.row) + BoxSize
                                 && BoxStart(at.col) <= j < BoxStart(at.col) + BoxSize :: Coord(i, j);
      var hs := (rowCells + colCells + boxCells) - {at};
      PeersAreRowColumnBox(at, hs);
      hs
  }

  // Counting the peers: eight in the row, eight in the column and four more
  // in the box, with no overlap between the three groups.

  /** Cells `(row, j)` for `0 <= j < n`, `j != skip`. */
  function RowSegment(row: int, skip: int, n: int): set<Coord> {
    set j | 0 <= j < n && j != skip :: Coord(row, j)
  }

  /** Cells `(i, col)` for `0 <= i < n`, `i != skip`. */
  function ColumnSegment(col: int, skip: int, n: int): set<Coord> {
    set i | 0 <= i < n && i != skip :: Coord(i, col)
  }

  function RowPeers(at: Cell): set<Coord> {
    RowSegment(at.row, at.col, GridSize)
  }

  function ColumnPeers(at: Cell): set<Coord> {
    ColumnSegment(at.col, at.row, GridSize)
  }

  /** The other two rows (or columns) of the box that holds `i`. */
  function OtherTwo(i: int): (int, int)
    requires 0 <= i < GridSize
  {
    (BoxStart(i) + (i % BoxSize + 1) % BoxSize, BoxStart(i) + (i % BoxSize + 2) % BoxSize)
  }

  /** The box peers in neither the row nor the column of `at`. */
  function BoxOnlyPeers(at: Cell): set<Coord> {
    var (r1, r2) := OtherTwo(at.row);
    var (c1, c2) := OtherTwo(at.col);
    {Coord(r1, c1), Coord(r1, c2), Coord(r2, c1), Coord(r2, c2)}
  }

  lemma OtherTwoAreTheRestOfTheBox(i: int, k: int)
    requires 0 <= i < GridSize && 0 <= k < GridSize
    ensures OtherTwo(i).0 != OtherTwo(i).1
    ensures k / BoxSize == i / BoxSize && k != i <==> k == OtherTwo(i).0 || k == OtherTwo(i).1
  {
  }

  lemma {:induction false} RowSegmentSize(row: int, skip: int, n: nat)
    ensures |RowSegment(row, skip, n)| == if 0 <= skip < n then n - 1 else n
  {
    if n > 0 {
      RowSegmentSize(row, skip, n - 1);
      var last := if n - 1 != skip then {Coord(row, n - 1)} else {};
      assert RowSegment(row, skip, n) == RowSegment(row, skip, n - 1) + last;
      assert Coord(row, n - 1) !in RowSegment(row, skip, n - 1);
    }
  }

  lemma {:induction false} ColumnSegmentSize(col: int, skip: int, n: nat)
    ensures |ColumnSegment(col, skip, n)| == if 0 <= skip < n then n - 1 else n
  {
    if n > 0 {
      ColumnSegmentSize(col, skip, n - 1);
      var last := if n - 1 != skip then {Coord(n - 1, col)} else {};
      assert ColumnSegment(col, skip, n) == ColumnSegment(col, skip, n - 1) + last;
      assert Coord(n - 1, col) !in ColumnSegment(col, skip, n - 1);
    }
  }

  lemma PeerGroupSizes(at: Cell)
    ensures |RowPeers(at)| == GridSize - 1
    ensures |ColumnPeers(at)| == GridSize - 1
    ensures |BoxOnlyPeers(at)| == 4
  {
    RowSegmentSize(at.row, at.col, GridSize);
    ColumnSegmentSize(at.col, at.row, GridSize);
    OtherTwoAreTheRestOfTheBox(at.row, at.row);
    OtherTwoAreTheRestOfTheBox(at.col, at.col);
  }

  /** One cell is in one of the three groups exactly when it is a peer. */
  lemma InPeerGroups(at: Cell, q: Coord)
    ensures q in RowPeers(at) + ColumnPeers(at) + BoxOnlyPeers(at) <==> InGrid(q) && Peer(q, at)
  {
  }

  lemma PeerGroupsAreDisjoint(at: Cell)
    ensures RowPeers(at) * ColumnPeers(at) == {}
    ensures (RowPeers(at) + ColumnPeers(at)) * BoxOnlyPeers(at) == {}
  {
  }

  /** One cell is in the set the game builds exactly when it is a peer. */
  lemma InBuiltPeers(at: Cell, q: Coord, hs: set<Coord>)
    requires hs == (  (set j | 0 <= j < GridSize :: Coord(at.row, j))
                    + (set i | 0 <= i < GridSize :: Coord(i, at.col))
                    + (set i, j | BoxStart(at.row) <= i < BoxStart(at.row) + BoxSize
                                  && BoxStart(at.col) <= j < BoxStart(at.col) + BoxSize :: Coord(i, j)))
                   - {at}
    ensures q in hs <==> InGrid(q) && Peer(q, at)
  {
  }

  /** The set the game builds is exactly the peer relation, and it has 20
      members: 8 in the row, 8 in the column and 4 more in the box. */
  lemma PeersAreRowColumnBox(at: Cell, hs: set<Coord>)
    requires hs == (  (set j | 0 <= j < GridSize :: Coord(at.row, j))
                    + (set i | 0 <= i < GridSize :: Coord(i, at.col))
                    + (set i, j | BoxStart(at.row) <= i < BoxStart(at.row) + BoxSize
                                  && BoxStart(at.col) <= j < BoxStart(at.col) + BoxSize :: Coord(i, j)))
                   - {at}
    ensures forall q :: q in hs <==> InGrid(q) && Peer(q, at)
    ensures |hs| == 20
  {
    var groups := RowPeers(at) + ColumnPeers(at) + BoxOnlyPeers(at);
    forall q
      ensures q in hs <==> InGrid(q) && Peer(q, at)
      ensures q in hs <==> q in groups
    {
      InBuiltPeers(at, q, hs);
      InPeerGroups(at, q);
    }
    assert hs == groups;
    PeerGroupsAreDisjoint(at);
    PeerGroupSizes(at);
  }

  /** A cell to mark because it shows the same, non-empty value as the
      selected cell. The scan covers the whole board, not only the peers. */
  predicate ShowsSelectedValue(board: Option<Grid>, selected: Option<Cell>, q: Coord) {
    && selected.Some? && board.Some?
    && At(board.value, selected.value) != 0
    && InGrid(q) && q != selected.value
    && At(board.value, q) == At(board.value, selected.value)
  }

  /** The same-value cells, collected by a row-major scan of the board. */
  method SameValueCells(board: Option<Grid>, selected: Option<Cell>) returns (matches: seq<Coord>)
    ensures selected.None? || board.None? || At(board.value, selected.value) == 0 ==> matches == []
    ensures forall q :: q in matches <==> ShowsSelectedValue(board, selected, q)
    ensures forall i, j :: 0 <= i < j < |matches| ==> ScanIndex(matches[i]) < ScanIndex(matches[j])
  {
    if selected.None? || board.None? {
      return [];
    }
    var at := selected.value;
    var g := board.value;
    var value := At(g, at);
    if value == 0 {
      return [];
    }
    matches := [];
    var r := 0;
    while r < GridSize
      invariant 0 <= r <= GridSize
      invariant forall q :: q in matches <==> ShowsSelectedValue(board, selected, q) && q.row < r
      invariant forall k :: 0 <= k < |matches| ==> ScanIndex(matches[k]) < r * GridSize
      invariant forall i, j :: 0 <= i < j < |matches| ==> ScanIndex(matches[i]) < ScanIndex(matches[j])
    {
      var c := 0;
      while c < GridSize
        invariant 0 <= c <= GridSize
        invariant forall q :: q in matches <==> ShowsSelectedValue(board, selected, q) && ScannedBefore(q, r, c)
        invariant forall k :: 0 <= k < |matches| ==> ScanIndex(matches[k]) < r * GridSize + c
        invariant forall i, j :: 0 <= i < j < |matches| ==> ScanIndex(matches[i]) < ScanIndex(matches[j])
      {
        if g[r][c] == value && !(r == at.row && c == at.col) {
          matches := matches + [Coord(r, c)];
        }
        c := c + 1;
      }
      r := r + 1;
    }
  }
}
