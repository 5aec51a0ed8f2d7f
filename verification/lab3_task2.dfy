/** The scheduling experiment built on the LED matrix driver: each worker
    n lights row n of the matrix column by column, and the experiment runs
    rounds of 1 to 8 workers, clearing the matrix after every round.

    The workers are separate processes in the source; here they run one
    after another. RoundAnyOrder shows that the frame a round leaves behind
    is the same for every order in which the workers' writes could land. */
module Lab3Task2 {
  import opened LedMatrixH
  import opened LedMatrix

  /** The frame after the first k iterations of run_child(n), starting from
      frame f: set_led(n, i, WHITE) for i = 0 .. k-1, in that order. */
  function LightRow(f: seq<Color>, n: int, k: nat): (g: seq<Color>)
    requires IsFrame(f) && n >= 0 && k <= 8
    ensures IsFrame(g)
  {
    if k == 0 then f else WithLed(LightRow(f, n, k - 1), n, k - 1, RGB565_WHITE)
  }

  /** After k iterations of run_child(n), the cells from the start of row n
      up to (not including) column k are WHITE and every other cell keeps
      its prior value. For n of 8 or more the range lies past the buffer,
      so nothing changes. */
  lemma {:induction false} LightRowAt(f: seq<Color>, n: int, k: nat, j: int)
    requires IsFrame(f) && n >= 0 && k <= 8 && 0 <= j < NUM_LEDS
    ensures LightRow(f, n, k)[j] == if LedIndex(n, 0) <= j < LedIndex(n, k) then RGB565_WHITE else f[j]
  {
    if k > 0 {
      LightRowAt(f, n, k - 1, j);
    }
  }

  /** run_child(n) for a row of the matrix lights all of that row. */
  lemma RunChildLightsRow(f: seq<Color>, n: int)
    requires IsFrame(f) && 0 <= n < COL_SIZE
    ensures forall col :: 0 <= col < ROW_SIZE ==> LightRow(f, n, 8)[LedIndex(n, col)] == RGB565_WHITE
  {
    forall col | 0 <= col < ROW_SIZE
      ensures LightRow(f, n, 8)[LedIndex(n, col)] == RGB565_WHITE
    {
      LedIndexInRange(n, col);
      LightRowAt(f, n, 8, LedIndex(n, col));
    }
  }

  /** run_child(n) changes no cell outside row n. */
  lemma RunChildKeepsOtherCells(f: seq<Color>, n: int)
    requires IsFrame(f) && n >= 0
    ensures forall j :: 0 <= j < NUM_LEDS && !(LedIndex(n, 0) <= j < LedIndex(n, 8)) ==>
      LightRow(f, n, 8)[j] == f[j]
  {
    forall j | 0 <= j < NUM_LEDS && !(LedIndex(n, 0) <= j < LedIndex(n, 8))
      ensures LightRow(f, n, 8)[j] == f[j]
    {
      LightRowAt(f, n, 8, j);
    }
  }

  /** run_child(n) for n of 8 or more has every set_led call rejected and
      leaves the frame unchanged. */
  lemma {:induction false} RunChildPastLastRow(f: seq<Color>, n: int, k: nat)
    requires IsFrame(f) && n >= COL_SIZE && k <= 8
    ensures LightRow(f, n, k) == f
  {
    if k > 0 {
      RunChildPastLastRow(f, n, k - 1);
    }
  }

  /** In round numChildren (1 to 8) the workers are n = 0 .. numChildren-1,
      so every set_led call a worker makes addresses a cell of the buffer
      and none is rejected. */
  lemma ChildWritesAccepted(numChildren: int, n: int, i: int)
    requires 1 <= numChildren <= 8 && 0 <= n < numChildren && 0 <= i < 8
    ensures 0 <= LedIndex(n, i) < NUM_LEDS
  {
  }

  /** The frame after workers 0 .. k-1 have each run to completion. */
  function RowsLit(f: seq<Color>, k: nat): (g: seq<Color>)
    requires IsFrame(f) && k <= COL_SIZE
    ensures IsFrame(g)
  {
    if k == 0 then f else LightRow(RowsLit(f, k - 1), k - 1, 8)
  }

  /** Once workers 0 .. k-1 have finished, rows 0 .. k-1 are WHITE and the
      remaining rows keep their prior values. */
  lemma {:induction false} RowsLitAt(f: seq<Color>, k: nat, j: int)
    requires IsFrame(f) && k <= COL_SIZE && 0 <= j < NUM_LEDS
    ensures RowsLit(f, k)[j] == if j < LedIndex(k, 0) then RGB565_WHITE else f[j]
  {
    if k > 0 {
      RowsLitAt(f, k - 1, j);
      LightRowAt(RowsLit(f, k - 1), k - 1, 8, j);
    }
  }

  /** One set_led(row, col, WHITE) call made by a worker. */
  datatype Write = Write(row: int, col: int)

  /** The frame after the writes `ws` have landed, in the order given. */
  function ApplyWhite(f: seq<Color>, ws: seq<Write>): (g: seq<Color>)
    requires IsFrame(f) && forall w :: w in ws ==> 0 <= LedIndex(w.row, w.col)
    ensures IsFrame(g)
  {
    if ws == [] then f
    else
      var last := ws[|ws| - 1];
      WithLed(ApplyWhite(f, ws[..|ws| - 1]), last.row, last.col, RGB565_WHITE)
  }

  /** Whatever their order, the writes `ws` leave WHITE exactly in the cells
      some write addresses, and every other cell as it was. */
  lemma {:induction false} ApplyWhiteAt(f: seq<Color>, ws: seq<Write>, j: int)
    requires IsFrame(f) && forall w :: w in ws ==> 0 <= LedIndex(w.row, w.col)
    requires 0 <= j < NUM_LEDS
    ensures ApplyWhite(f, ws)[j] ==
      if exists w :: w in ws && LedIndex(w.row, w.col) == j then RGB565_WHITE else f[j]
  {
    if ws != [] {
      var init, last := ws[..|ws| - 1], ws[|ws| - 1];
      assert ws == init + [last];
      ApplyWhiteAt(f, init, j);
      if LedIndex(last.row, last.col) != j {
        assert (exists w :: w in ws && LedIndex(w.row, w.col) == j)
          == (exists w :: w in init && LedIndex(w.row, w.col) == j);
      }
    }
  }

  /** The frame a round of numChildren workers leaves is the same for every
      interleaving of their writes: any sequence holding exactly the writes
      (n, i) for n < numChildren and i < 8, in any order and even repeated,
      gives the frame of the workers run one after another. */
  lemma RoundAnyOrder(f: seq<Color>, numChildren: nat, ws: seq<Write>)
    requires IsFrame(f) && numChildren <= COL_SIZE
    requires forall w :: w in ws <==> 0 <= w.row < numChildren && 0 <= w.col < 8
    ensures ApplyWhite(f, ws) == RowsLit(f, numChildren)
  {
    var g, h := ApplyWhite(f, ws), RowsLit(f, numChildren);
    forall j | 0 <= j < NUM_LEDS
      ensures g[j] == h[j]
    {
      ApplyWhiteAt(f, ws, j);
      RowsLitAt(f, numChildren, j);
      if j < LedIndex(numChildren, 0) {
        var w := Write(j / ROW_SIZE, j % ROW_SIZE);
        assert w in ws && LedIndex(w.row, w.col) == j;
      }
    }
  }

  /** run_child: for each column i = 0 .. 7, set LED (n, i) to WHITE. The
      CPU-burning work between the writes has no effect on the matrix and
      is left out. */
  method RunChild(m: LedMatrix, n: int)
    requires m.Mapped() && n >= 0
    modifies m.ledMap
    ensures m.ledMap[..] == LightRow(old(m.ledMap[..]), n, 8)
    ensures forall j :: 0 <= j < NUM_LEDS ==>
      m.ledMap[j] == if LedIndex(n, 0) <= j < LedIndex(n, 8) then RGB565_WHITE else old(m.ledMap[j])
  {
    for i := 0 to 8
      invariant m.ledMap[..] == LightRow(old(m.ledMap[..]), n, i)
    {
      m.SetLed(n, i, RGB565_WHITE);
    }
    forall j | 0 <= j < NUM_LEDS
      ensures m.ledMap[j] == if LedIndex(n, 0) <= j < LedIndex(n, 8) then RGB565_WHITE else old(m.ledMap[j])
    {
      LightRowAt(old(m.ledMap[..]), n, 8, j);
    }
  }

  /** The workers of one round, n = 0 .. numChildren-1, each running
      run_child(n); the round waits for all of them before going on. */
  method RunChildren(m: LedMatrix, numChildren: int)
    requires m.Mapped() && 1 <= numChildren <= 8
    modifies m.ledMap
    ensures m.ledMap[..] == RowsLit(old(m.ledMap[..]), numChildren)
    ensures forall j :: 0 <= j < NUM_LEDS ==>
      m.ledMap[j] == if j < LedIndex(numChildren, 0) then RGB565_WHITE else old(m.ledMap[j])
  {
    for n := 0 to numChildren
      invariant m.ledMap[..] == RowsLit(old(m.ledMap[..]), n)
    {
      RunChild(m, n);
    }
    forall j | 0 <= j < NUM_LEDS
      ensures m.ledMap[j] == if j < LedIndex(numChildren, 0) then RGB565_WHITE else old(m.ledMap[j])
    {
      RowsLitAt(old(m.ledMap[..]), numChildren, j);
    }
  }

  /** The experiment between opening and closing the matrix: clear it, then
      for numChildren = 1 .. 8 run that many workers and clear it again.
      Within each round the first numChildren rows are fully lit before the
      clear, and every round ends with the matrix all off. */
  method RunRounds(m: LedMatrix)
    requires m.Mapped()
    modifies m.ledMap
    ensures m.ledMap[..] == Filled(RGB565_OFF)
  {
    m.ClearLeds();
    for numChildren := 1 to 9
      invariant m.ledMap[..] == Filled(RGB565_OFF)
    {
      RunChildren(m, numChildren);
      assert forall j :: 0 <= j < NUM_LEDS ==>
        m.ledMap[j] == if j < LedIndex(numChildren, 0) then RGB565_WHITE else RGB565_OFF;
      m.ClearLeds();
    }
  }
}
