/**
 * The six faces of a die as HTML: the fixed table from face value to pip
 * positions in a 3x3 grid (cells numbered 1..9, row by row) and the string
 * builder that emits nine cells per face.
 */
module Faces {
  import opened Wrappers

  /** The face class names, in the order the faces for values 1..6 are emitted. */
  const FaceNames: seq<string> := ["front", "bottom", "right", "left", "top", "back"]

  const PipCell := "<span class=\"pip\"></span>"
  const EmptyCell := "<span></span>"
  const CloseFace := "</div>"

  /** The pip positions of a face value; None for a value that is not a face. */
  function GetPips(value: int): (r: Option<seq<int>>)
    ensures r.Some? <==> 1 <= value <= 6
    ensures r.Some? ==> |r.value| == value
    ensures r.Some? ==> forall i :: 0 <= i < |r.value| ==> 1 <= r.value[i] <= 9
    ensures r.Some? ==> forall i, j :: 0 <= i < j < |r.value| ==> r.value[i] < r.value[j]
  {
    if value == 1 then Some([5])
    else if value == 2 then Some([1, 9])
    else if value == 3 then Some([1, 5, 9])
    else if value == 4 then Some([1, 3, 7, 9])
    else if value == 5 then Some([1, 3, 5, 7, 9])
    else if value == 6 then Some([1, 3, 4, 6, 7, 9])
    else None
  }

  /** The first n cells of a face: cell j (from 1) holds a pip when j is in pips. */
  function Cells(pips: seq<int>, n: nat): (r: seq<bool>)
    ensures |r| == n
  {
    if n == 0 then [] else Cells(pips, n - 1) + [n in pips]
  }

  /** The number of cells that hold a pip. */
  function CountPips(cells: seq<bool>): nat
  {
    if cells == [] then 0 else CountPips(cells[..|cells| - 1]) + (if cells[|cells| - 1] then 1 else 0)
  }

  function CellHTML(pip: bool): string
  {
    if pip then PipCell else EmptyCell
  }

  /** The cells' markup, first cell first. */
  function RenderCells(cells: seq<bool>): (r: string)
  {
    if cells == [] then "" else CellHTML(cells[0]) + RenderCells(cells[1..])
  }

  function OpenFace(name: string): string
  {
    "<div class=\"face " + name + "\">"
  }

  function FaceHTML(name: string, cells: seq<bool>): string
  {
    OpenFace(name) + RenderCells(cells) + CloseFace
  }

  /** The markup of the face for value v (1..6). */
  function FaceOf(v: int): (r: string)
    requires 1 <= v <= 6
  {
    FaceHTML(FaceNames[v - 1], Cells(GetPips(v).value, 9))
  }

  /** The face markups in emission order: faces.map(...) in the source. */
  function FaceList(): (r: seq<string>)
    ensures |r| == 6
  {
    seq(6, i requires 0 <= i < 6 => FaceOf(i + 1))
  }

  /** The strings of s concatenated without a separator. */
  function Join(s: seq<string>): (r: string)
  {
    if s == [] then "" else Join(s[..|s| - 1]) + s[|s| - 1]
  }

  lemma JoinStep(s: seq<string>, i: nat)
    requires i < |s|
    ensures Join(s[..i + 1]) == Join(s[..i]) + s[i]
  {
    assert s[..i + 1][..i] == s[..i];
  }

  /** What createDiceHTML returns: the six faces, joined in order. */
  function DiceHTML(): string
  {
    Join(FaceList())
  }

  /** Reads back a sequence of cells; None if s is not made of cell markup. */
  function ParseCells(s: string): Option<seq<bool>>
    decreases |s|
  {
    if s == [] then Some([])
    else if |PipCell| <= |s| && s[..|PipCell|] == PipCell then
      match ParseCells(s[|PipCell|..])
      case None => None
      case Some(rest) => Some([true] + rest)
    else if |EmptyCell| <= |s| && s[..|EmptyCell|] == EmptyCell then
      match ParseCells(s[|EmptyCell|..])
      case None => None
      case Some(rest) => Some([false] + rest)
    else None
  }

  /** Reads back the cells of a face with the given class name. */
  function ParseFace(name: string, s: string): Option<seq<bool>>
  {
    var open := OpenFace(name);
    if |open| + |CloseFace| <= |s| && s[..|open|] == open && s[|s| - |CloseFace|..] == CloseFace
    then ParseCells(s[|open|..|s| - |CloseFace|])
    else None
  }

  /**
   * createDiceHTML: the faces for values 1..6, built one after the other
   * and joined in order.
   */
  method CreateDiceHTML() returns (html: string)
    ensures html == DiceHTML()
  {
    html := "";
    for i := 0 to 6
      invariant html == Join(FaceList()[..i])
    {
      var face := FaceMarkup(i);
      JoinStep(FaceList(), i);
      html := html + face;
    }
    assert FaceList()[..6] == FaceList();
  }

  /** The markup of the face at position i, for value i + 1. */
  method FaceMarkup(i: nat) returns (face: string)
    requires i < 6
    ensures face == FaceList()[i]
  {
    var cells := CellsHTML(GetPips(i + 1).value);
    face := OpenFace(FaceNames[i]) + cells + CloseFace;
  }

  /** The nine cells of one face, built by the loop over the grid positions. */
  method CellsHTML(pips: seq<int>) returns (cells: string)
    ensures cells == RenderCells(Cells(pips, 9))
  {
    ghost var all := Cells(pips, 9);
    cells := "";
    for j := 1 to 10
      invariant RenderCells(all) == cells + RenderCells(all[j - 1..])
    {
      var cell := CellHTML(j in pips);
      CellsAt(pips, 9, j);
      RenderStep(all, j - 1);
      AppendAssoc(cells, cell, RenderCells(all[j..]));
      cells := cells + cell;
    }
  }

  lemma RenderStep(cells: seq<bool>, k: nat)
    requires k < |cells|
    ensures RenderCells(cells[k..]) == CellHTML(cells[k]) + RenderCells(cells[k + 1..])
  {
    assert cells[k..][1..] == cells[k + 1..];
  }

  lemma AppendAssoc<T>(a: seq<T>, b: seq<T>, c: seq<T>)
    ensures (a + b) + c == a + (b + c)
  {
  }

  /** One cell's markup is read as that cell, and parsing carries on after it. */
  lemma ParseAfterCell(pip: bool, tail: string)
    ensures ParseCells(CellHTML(pip) + tail) ==
      match ParseCells(tail)
      case None => None
      case Some(rest) => Some([pip] + rest)
  {
    var s := CellHTML(pip) + tail;
    if pip {
      assert s[..|PipCell|] == PipCell && s[|PipCell|..] == tail;
    } else {
      assert !(|PipCell| <= |s| && s[..|PipCell|] == PipCell) by {
        if |PipCell| <= |s| {
          assert s[5] == '>' && PipCell[5] == ' ';
        }
      }
      assert s[..|EmptyCell|] == EmptyCell && s[|EmptyCell|..] == tail;
    }
  }

  /** Parsing the rendered cells gives the cells back. */
  lemma {:induction false} ParseRenderCells(cells: seq<bool>)
    ensures ParseCells(RenderCells(cells)) == Some(cells)
  {
    if cells != [] {
      ParseRenderCells(cells[1..]);
      ParseAfterCell(cells[0], RenderCells(cells[1..]));
      assert cells == [cells[0]] + cells[1..];
    }
  }

  /** Parsing a rendered face with its own class name gives its cells back. */
  lemma ParseFaceHTML(name: string, cells: seq<bool>)
    ensures ParseFace(name, FaceHTML(name, cells)) == Some(cells)
  {
    var s := FaceHTML(name, cells);
    var open := OpenFace(name);
    assert s[..|open|] == open;
    assert s[|s| - |CloseFace|..] == CloseFace;
    assert s[|open|..|s| - |CloseFace|] == RenderCells(cells);
    ParseRenderCells(cells);
  }

  /** Cell j (from 1) of a face holds a pip exactly when j is one of the pip positions. */
  lemma {:induction false} CellsAt(pips: seq<int>, n: nat, j: nat)
    requires 1 <= j <= n
    ensures Cells(pips, n)[j - 1] <==> j in pips
  {
    if j < n {
      CellsAt(pips, n - 1, j);
    }
  }

  /** A pip at a position beyond the first m cells does not show among them. */
  lemma {:induction false} CellsDropLast(init: seq<int>, n: int, m: nat)
    requires m < n
    ensures Cells(init + [n], m) == Cells(init, m)
  {
    if m > 0 {
      CellsDropLast(init, n, m - 1);
      assert m in init + [n] <==> m in init;
    }
  }

  /**
   * In a strictly increasing list within 1..n that ends with n, the entries
   * before the last lie within 1..n - 1 and give the same first n - 1 cells.
   */
  lemma LastPip(pips: seq<int>, n: int)
    requires n > 0
    requires forall i :: 0 <= i < |pips| ==> 1 <= pips[i] <= n
    requires forall i, j :: 0 <= i < j < |pips| ==> pips[i] < pips[j]
    requires pips != [] && pips[|pips| - 1] == n
    ensures var init := pips[..|pips| - 1];
      (forall i :: 0 <= i < |init| ==> 1 <= init[i] <= n - 1) &&
      (forall i, j :: 0 <= i < j < |init| ==> init[i] < init[j]) &&
      |init| == |pips| - 1 &&
      Cells(pips, n - 1) == Cells(init, n - 1)
  {
    var init := pips[..|pips| - 1];
    assert pips == init + [n];
    CellsDropLast(init, n, n - 1);
  }

  /** Counting the first n cells adds cell n to the count of the first n - 1. */
  lemma CountStep(pips: seq<int>, n: nat)
    requires n > 0
    ensures CountPips(Cells(pips, n)) == CountPips(Cells(pips, n - 1)) + (if n in pips then 1 else 0)
  {
    assert Cells(pips, n)[..n - 1] == Cells(pips, n - 1);
  }

  /** A strictly increasing list within 1..n that does not end with n lies within 1..n - 1. */
  lemma NotLast(pips: seq<int>, n: int)
    requires forall i :: 0 <= i < |pips| ==> 1 <= pips[i] <= n
    requires forall i, j :: 0 <= i < j < |pips| ==> pips[i] < pips[j]
    requires !(pips != [] && pips[|pips| - 1] == n)
    ensures n !in pips
    ensures forall i :: 0 <= i < |pips| ==> 1 <= pips[i] <= n - 1
  {
    forall i | 0 <= i < |pips| ensures pips[i] < n {
      assert pips[i] <= pips[|pips| - 1];
    }
  }

  /** A non-empty list within 1..n needs n to be at least 1. */
  lemma PipsNeedRoom(pips: seq<int>, n: int)
    requires forall i :: 0 <= i < |pips| ==> 1 <= pips[i] <= n
    ensures pips != [] ==> n >= 1
  {
    if pips != [] {
      assert 1 <= pips[0] <= n;
    }
  }

  /**
   * A face whose pip list is strictly increasing within 1..n has exactly as
   * many pip cells among its first n cells as the list has entries.
   */
  lemma {:induction false} CountCells(pips: seq<int>, n: nat)
    requires forall i :: 0 <= i < |pips| ==> 1 <= pips[i] <= n
    requires forall i, j :: 0 <= i < j < |pips| ==> pips[i] < pips[j]
    ensures CountPips(Cells(pips, n)) == |pips|
  {
    if n == 0 {
      PipsNeedRoom(pips, n);
    } else {
      CountStep(pips, n);
      if pips != [] && pips[|pips| - 1] == n {
        LastPip(pips, n);
        CountCells(pips[..|pips| - 1], n - 1);
      } else {
        NotLast(pips, n);
        CountCells(pips, n - 1);
      }
    }
  }

  /**
   * The face for value v is a face of nine cells, exactly v of which are
   * pips, and cell j holds a pip exactly when j is one of v's pip positions.
   */
  lemma FaceHasValuePips(v: int)
    requires 1 <= v <= 6
    ensures ParseFace(FaceNames[v - 1], FaceOf(v)).Some?
    ensures var cells := ParseFace(FaceNames[v - 1], FaceOf(v)).value;
      |cells| == 9 && CountPips(cells) == v &&
      forall j :: 1 <= j <= 9 ==> (cells[j - 1] <==> j in GetPips(v).value)
  {
    var pips := GetPips(v).value;
    ParseFaceHTML(FaceNames[v - 1], Cells(pips, 9));
    CountCells(pips, 9);
    forall j | 1 <= j <= 9 ensures Cells(pips, 9)[j - 1] <==> j in pips {
      CellsAt(pips, 9, j);
    }
  }
}
