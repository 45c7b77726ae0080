/**
 * The editor's component state and its event handlers (src/pages/EditorPage.jsx):
 * the cabinet row, the selected cabinet's index and the ceiling height. Each handler
 * replaces the row by a new list built with `map`, `filter` and spread, which this
 * class models as methods assigning the new list to the field.
 * `Date.now()` identifiers are passed in; nothing assumes they are unique.
 */
module EditorPage {
  import opened Cabinets
  import CanvasLayout

  class Editor {
    var cabinets: seq<Cabinet>
    var selectedIdx: int
    var ceilingH: int

    /** At least one cabinet, and the selection names one of them. */
    ghost predicate Valid()
      reads this
    {
      |cabinets| >= 1 && 0 <= selectedIdx < |cabinets|
    }

    /** The initial state: one 60 × 220 cabinet with id 1, selected, under a 240 cm ceiling. */
    constructor ()
      ensures Valid()
      ensures cabinets == [Cabinet(1, 60, 220, [])] && selectedIdx == 0 && ceilingH == 240
    {
      cabinets := [Cabinet(1, 60, 220, [])];
      selectedIdx := 0;
      ceilingH := 240;
    }

    /** `addCabinet`: appends one standard cabinet and selects it. */
    method AddCabinet(id: int)
      modifies this
      ensures cabinets == old(cabinets) + [NewCabinet(id)]
      ensures selectedIdx == old(|cabinets|)
      ensures ceilingH == old(ceilingH)
      ensures Valid()
    {
      var newCab := NewCabinet(id);
      selectedIdx := |cabinets|;
      cabinets := cabinets + [newCab];
    }

    /**
     * `removeCabinet(idx)`: refused, with nothing changed, when at most one cabinet is
     * left; otherwise filters out index `idx` and selects `max(0, idx - 1)`. On the
     * indices the cabinet list offers, the state stays valid.
     */
    method RemoveCabinet(idx: int) returns (refused: bool)
      modifies this
      ensures refused <==> old(|cabinets|) <= 1
      ensures refused ==> cabinets == old(cabinets) && selectedIdx == old(selectedIdx)
      ensures !refused ==> cabinets == ExcludeIndex(old(cabinets), idx)
      ensures !refused ==> selectedIdx == if idx - 1 > 0 then idx - 1 else 0
      ensures !refused && 0 <= idx < old(|cabinets|) ==>
        |cabinets| == old(|cabinets|) - 1 && cabinets == old(cabinets[..idx]) + old(cabinets[idx + 1..])
      ensures ceilingH == old(ceilingH)
      ensures old(Valid()) && idx <= old(|cabinets|) ==> Valid()
    {
      if |cabinets| <= 1 {
        return true;
      }
      ExcludeIndexRemovesOne(cabinets, idx);
      cabinets := ExcludeIndex(cabinets, idx);
      selectedIdx := if 0 > idx - 1 then 0 else idx - 1;
      refused := false;
    }

    /** `updateCabinet(field, v)`: sets one field of the selected cabinet and nothing else. */
    method UpdateCabinet(field: Field, v: int)
      modifies this
      ensures |cabinets| == old(|cabinets|)
      ensures selectedIdx == old(selectedIdx) && ceilingH == old(ceilingH)
      ensures forall i :: 0 <= i < |cabinets| && i != selectedIdx ==> cabinets[i] == old(cabinets[i])
      ensures 0 <= selectedIdx < |cabinets| ==> cabinets[selectedIdx] == WithField(old(cabinets[selectedIdx]), field, v)
      ensures old(Valid()) ==> Valid()
    {
      if 0 <= selectedIdx < |cabinets| {
        cabinets := cabinets[selectedIdx := WithField(cabinets[selectedIdx], field, v)];
      }
    }

    /**
     * `addAccessory(kind)`: appends the kind's default accessory, sized from the selected
     * cabinet's height, to that cabinet only. The source reads `cabinets[selectedIdx]`
     * unguarded, so a valid selection is required.
     */
    method AddAccessory(kind: AccessoryType, id: int)
      requires Valid()
      modifies this
      ensures Valid()
      ensures |cabinets| == old(|cabinets|)
      ensures selectedIdx == old(selectedIdx) && ceilingH == old(ceilingH)
      ensures forall i :: 0 <= i < |cabinets| && i != selectedIdx ==> cabinets[i] == old(cabinets[i])
      ensures var c := old(cabinets[selectedIdx]);
        cabinets[selectedIdx] == c.(accessories := c.accessories + [DefaultAccessory(kind, id, c.height)])
    {
      var cab := cabinets[selectedIdx];
      var acc := DefaultAccessory(kind, id, cab.height);
      cabinets := cabinets[selectedIdx := cab.(accessories := cab.accessories + [acc])];
    }

    /** `removeAccessory(id)`: drops every accessory with that id from the selected cabinet. */
    method RemoveAccessory(accId: int)
      modifies this
      ensures |cabinets| == old(|cabinets|)
      ensures selectedIdx == old(selectedIdx) && ceilingH == old(ceilingH)
      ensures forall i :: 0 <= i < |cabinets| && i != selectedIdx ==> cabinets[i] == old(cabinets[i])
      ensures 0 <= selectedIdx < |cabinets| ==> var c := old(cabinets[selectedIdx]);
        cabinets[selectedIdx] == c.(accessories := WithoutId(c.accessories, accId))
      ensures 0 <= selectedIdx < |cabinets| ==>
        |cabinets[selectedIdx].accessories| <= old(|cabinets[selectedIdx].accessories|)
      ensures old(Valid()) ==> Valid()
    {
      if 0 <= selectedIdx < |cabinets| {
        var cab := cabinets[selectedIdx];
        WithoutIdSpec(cab.accessories, accId);
        cabinets := cabinets[selectedIdx := cab.(accessories := WithoutId(cab.accessories, accId))];
      }
    }

    /** The ceiling slider: only the ceiling changes; no cabinet height is lowered. */
    method SetCeilingHeight(h: int)
      modifies this
      ensures ceilingH == h
      ensures cabinets == old(cabinets) && selectedIdx == old(selectedIdx)
    {
      ceilingH := h;
    }

    /** A click on an entry of the cabinet list selects that entry. */
    method Select(idx: nat)
      requires idx < |cabinets|
      modifies this
      ensures selectedIdx == idx
      ensures cabinets == old(cabinets) && ceilingH == old(ceilingH)
      ensures old(Valid()) ==> Valid()
    {
      selectedIdx := idx;
    }

    /**
     * A click on the canvas at `x`: selects the first cabinet whose span holds `x`, which
     * is the only one when no width is negative; a click off every span changes nothing.
     */
    method Click(x: int)
      modifies this
      ensures cabinets == old(cabinets) && ceilingH == old(ceilingH)
      ensures (forall j :: 0 <= j < |cabinets| ==> !CanvasLayout.InSpan(cabinets, j, x)) ==> selectedIdx == old(selectedIdx)
      ensures (exists j :: 0 <= j < |cabinets| && CanvasLayout.InSpan(cabinets, j, x)) ==>
        0 <= selectedIdx < |cabinets| && CanvasLayout.InSpan(cabinets, selectedIdx, x) &&
        forall j :: 0 <= j < selectedIdx ==> !CanvasLayout.InSpan(cabinets, j, x)
      ensures (forall j :: 0 <= j < |cabinets| ==> cabinets[j].width >= 0) ==>
        forall j :: 0 <= j < |cabinets| && CanvasLayout.InSpan(cabinets, j, x) ==> j == selectedIdx
      ensures old(Valid()) ==> Valid()
    {
      var hit := CanvasLayout.HitTest(cabinets, x);
      if hit.Some? {
        selectedIdx := hit.value;
        forall j | 0 <= j < |cabinets| && CanvasLayout.InSpan(cabinets, j, x) && (forall k :: 0 <= k < |cabinets| ==> cabinets[k].width >= 0)
          ensures j == selectedIdx
        {
          CanvasLayout.HitIsUnique(cabinets, j, selectedIdx, x);
        }
      }
    }
  }
}
