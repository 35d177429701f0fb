/** The render modes of main.js: the fixed `MODES` table, the pill button that
    steps `currentMode = (currentMode + 1) % MODES.length`, and `applyMode`,
    which sets the shader uniform `iMode` to the entry's id.  Labels and CSS
    classes are kept as data; the panels they toggle are not modelled. */
module Modes {

  datatype Mode = Mode(id: nat, name: string, cls: string)

  const MODES: seq<Mode> := [
    Mode(0, "shaded", "mode-shaded"),
    Mode(1, "heatmap", "mode-heatmap"),
    Mode(2, "normals", "mode-normals"),
    Mode(3, "depth", "mode-depth"),
    Mode(4, "slice", "mode-slice"),
    Mode(5, "ao", "mode-ao")
  ]

  /** The `iMode` value `applyMode(idx)` writes: the entry's id, which in this
      table is always the index itself. */
  function ModeId(idx: nat): (id: nat)
    requires idx < |MODES|
    ensures id == idx
  {
    MODES[idx].id
  }

  /** The mode the pill button moves to. */
  function NextMode(m: nat): (r: nat)
    ensures r < |MODES|
    ensures m < |MODES| - 1 ==> r == m + 1
    ensures m == |MODES| - 1 ==> r == 0
  {
    (m + 1) % |MODES|
  }

  /** The mode after `k` presses of the pill button, starting from `m`. */
  function Presses(m: nat, k: nat): nat
  {
    if k == 0 then m else NextMode(Presses(m, k - 1))
  }

  /** `k` presses from a valid mode advance it by `k`, modulo the table size. */
  lemma {:induction false} PressesAdvance(m: nat, k: nat)
    requires m < |MODES|
    ensures Presses(m, k) == (m + k) % |MODES|
  {
    if k > 0 {
      PressesAdvance(m, k - 1);
    }
  }

  /** Six presses bring every mode back to itself, and no fewer do. */
  lemma CycleReturns(m: nat)
    requires m < |MODES|
    ensures Presses(m, |MODES|) == m
    ensures forall k :: 0 < k < |MODES| ==> Presses(m, k) != m
  {
    PressesAdvance(m, |MODES|);
    forall k | 0 < k < |MODES| ensures Presses(m, k) != m {
      PressesAdvance(m, k);
    }
  }
}
