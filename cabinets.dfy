/**
 * The editor's design data: a row of cabinets, each holding accessories, and the
 * pure list transformations the editor's handlers are built from (src/pages/EditorPage.jsx).
 * Lengths are centimetres; accessory positions are exact reals because their defaults
 * are fractions of the cabinet height.
 */
module Cabinets {
  import opened Wrappers
  import opened Sequences

  /** The five accessory buttons of the editor (ACCESSORY_TYPES). */
  datatype AccessoryType = Shelf | Drawer | Door | HangingRod | Led

  /** The side a door opens to; the editor only ever creates left-opening doors. */
  datatype Opening = OpensLeft | OpensRight

  /** `{ id, type, y, height, opening? }`; only doors carry an opening. */
  datatype Accessory = Accessory(id: int, kind: AccessoryType, y: real, height: real, opening: Option<Opening>)

  /** `{ id, width, height, accessories }`. */
  datatype Cabinet = Cabinet(id: int, width: int, height: int, accessories: seq<Accessory>)

  /** The cabinet field a dimension slider edits. */
  datatype Field = Width | Height

  /** A freshly added cabinet: 60 cm wide, 220 cm tall, empty. */
  function NewCabinet(id: int): (c: Cabinet)
    ensures c.id == id && c.width == 60 && c.height == 220 && c.accessories == []
  {
    Cabinet(id, 60, 220, [])
  }

  /** The accessory `addAccessory(kind)` creates in a cabinet `h` cm tall. */
  function DefaultAccessory(kind: AccessoryType, id: int, h: int): Accessory
  {
    var hr := h as real;
    match kind
    case Shelf => Accessory(id, Shelf, hr / 2.0, 2.0, None)
    case Drawer => Accessory(id, Drawer, hr * 0.6, 20.0, None)
    case Door => Accessory(id, Door, 0.0, hr, Some(OpensLeft))
    case HangingRod => Accessory(id, HangingRod, hr * 0.4, 4.0, None)
    case Led => Accessory(id, Led, 10.0, 2.0, None)
  }

  /** The band an accessory covers lies inside a cabinet `h` cm tall. */
  predicate FitsIn(a: Accessory, h: int) {
    0.0 <= a.y && a.y + a.height <= h as real
  }

  /**
   * Each default keeps its kind and id, and lies inside the cabinet exactly when the
   * cabinet is tall enough; nothing is clamped, so a drawer added to a cabinet lower
   * than 50 cm sticks out of it.
   */
  lemma DefaultAccessoryFits(kind: AccessoryType, id: int, h: int)
    ensures DefaultAccessory(kind, id, h).kind == kind && DefaultAccessory(kind, id, h).id == id
    ensures DefaultAccessory(kind, id, h).opening == (if kind == Door then Some(OpensLeft) else None)
    ensures kind == Shelf ==> (FitsIn(DefaultAccessory(kind, id, h), h) <==> h >= 4)
    ensures kind == Drawer ==> (FitsIn(DefaultAccessory(kind, id, h), h) <==> h >= 50)
    ensures kind == Door ==> FitsIn(DefaultAccessory(kind, id, h), h)
    ensures kind == HangingRod ==> (FitsIn(DefaultAccessory(kind, id, h), h) <==> h >= 7)
    ensures kind == Led ==> (FitsIn(DefaultAccessory(kind, id, h), h) <==> h >= 12)
  {
  }

  /** `{ ...c, [field]: v }`. */
  function WithField(c: Cabinet, field: Field, v: int): (r: Cabinet)
    ensures r.id == c.id && r.accessories == c.accessories
    ensures r.width == (if field == Width then v else c.width)
    ensures r.height == (if field == Height then v else c.height)
  {
    match field
    case Width => c.(width := v)
    case Height => c.(height := v)
  }

  /** `s.filter((_, i) => i !== idx)`, one element at a time. */
  function ExcludeIndex<T>(s: seq<T>, idx: int): seq<T>
    decreases |s|
  {
    if s == [] then []
    else (if idx == 0 then [] else [s[0]]) + ExcludeIndex(s[1..], idx - 1)
  }

  /**
   * Filtering out index `idx` removes exactly the element at `idx` and keeps the others
   * in order; an index outside the list removes nothing.
   */
  lemma {:induction false} ExcludeIndexRemovesOne<T>(s: seq<T>, idx: int)
    ensures 0 <= idx < |s| ==> ExcludeIndex(s, idx) == s[..idx] + s[idx + 1..]
    ensures !(0 <= idx < |s|) ==> ExcludeIndex(s, idx) == s
    decreases |s|
  {
    if s != [] {
      ExcludeIndexRemovesOne(s[1..], idx - 1);
      if idx == 0 {
        assert s[..0] + s[1..] == s[1..];
      } else if 0 < idx < |s| {
        assert [s[0]] + (s[1..][..idx - 1] + s[1..][idx..]) == s[..idx] + s[idx + 1..];
      } else {
        assert [s[0]] + s[1..] == s;
      }
    }
  }

  /** `accessories.filter(a => a.id !== id)`. */
  function WithoutId(accs: seq<Accessory>, id: int): seq<Accessory>
    decreases |accs|
  {
    if accs == [] then []
    else (if accs[0].id == id then [] else [accs[0]]) + WithoutId(accs[1..], id)
  }

  /** Removing by id never lengthens the list. */
  lemma {:induction false} WithoutIdShorter(accs: seq<Accessory>, id: int)
    ensures |WithoutId(accs, id)| <= |accs|
    decreases |accs|
  {
    if accs != [] {
      WithoutIdShorter(accs[1..], id);
    }
  }

  /**
   * Removing by id drops every accessory with that id and keeps every other one,
   * as often as it occurred.
   */
  lemma {:induction false} WithoutIdCounts(accs: seq<Accessory>, id: int)
    ensures forall a :: multiset(WithoutId(accs, id))[a] == if a.id == id then 0 else multiset(accs)[a]
    decreases |accs|
  {
    if accs != [] {
      WithoutIdCounts(accs[1..], id);
      var head := if accs[0].id == id then [] else [accs[0]];
      assert accs == [accs[0]] + accs[1..];
      assert WithoutId(accs, id) == head + WithoutId(accs[1..], id);
      assert multiset(WithoutId(accs, id)) == multiset(head) + multiset(WithoutId(accs[1..], id));
      assert multiset(accs) == multiset([accs[0]]) + multiset(accs[1..]);
    }
  }

  /** What removing by id keeps stays in its original order. */
  lemma {:induction false} WithoutIdInOrder(accs: seq<Accessory>, id: int)
    ensures IsSubsequence(WithoutId(accs, id), accs)
    decreases |accs|
  {
    if accs != [] {
      WithoutIdInOrder(accs[1..], id);
      var rest := WithoutId(accs[1..], id);
      assert accs == [accs[0]] + accs[1..];
      if accs[0].id == id {
        assert WithoutId(accs, id) == rest;
        SubsequenceOfTail(rest, accs);
      } else {
        assert WithoutId(accs, id) == [accs[0]] + rest;
        assert ([accs[0]] + rest)[1..] == rest;
      }
    }
  }

  /**
   * Removing by id drops every accessory with that id and keeps every other one,
   * as often as it occurred and in its original order; the list never grows.
   */
  lemma WithoutIdSpec(accs: seq<Accessory>, id: int)
    ensures |WithoutId(accs, id)| <= |accs|
    ensures forall a :: multiset(WithoutId(accs, id))[a] == if a.id == id then 0 else multiset(accs)[a]
    ensures IsSubsequence(WithoutId(accs, id), accs)
  {
    WithoutIdShorter(accs, id);
    WithoutIdCounts(accs, id);
    WithoutIdInOrder(accs, id);
  }
}
