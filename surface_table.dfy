/** The table of key-press images: the `KeyPressSurfaces` enumeration, the
    opaque handles SDL hands out, and the bitmap each slot is loaded from. */
module SurfaceTable {

  /** An opaque SDL handle (an `SDL_Surface*` or an `SDL_Window*`). */
  datatype Handle = Handle(id: nat)

  /** A possibly-NULL pointer: `None` is NULL. */
  datatype Option<T> = None | Some(value: T)

  /** The slots of `gKeyPressSurfaces`, in the order the enumeration declares them. */
  datatype Slot = Default | Up | Down | Left | Right

  /** `KEY_PRESS_SURFACE_TOTAL`: the enumerator after the last slot, used as the table size. */
  const TOTAL: nat := 5

  /** The integer value of an enumerator, which is also its index into the table. */
  function Index(s: Slot): (i: nat)
    ensures i < TOTAL
  {
    match s
    case Default => 0
    case Up => 1
    case Down => 2
    case Left => 3
    case Right => 4
  }

  /** The enumerator whose value is `i`. */
  function FromIndex(i: nat): (s: Slot)
    requires i < TOTAL
    ensures Index(s) == i
  {
    if i == 0 then Default
    else if i == 1 then Up
    else if i == 2 then Down
    else if i == 3 then Left
    else Right
  }

  /** Distinct enumerators have distinct values, and `FromIndex` undoes `Index`. */
  lemma IndexRoundTrip(s: Slot, t: Slot)
    ensures Index(s) == Index(t) ==> s == t
    ensures FromIndex(Index(s)) == s
  {
  }

  /** The bitmap `loadMedia` reads into each slot. */
  function ImagePath(s: Slot): string
  {
    match s
    case Default => "Images/press.bmp"
    case Up => "Images/up.bmp"
    case Down => "Images/down.bmp"
    case Left => "Images/left.bmp"
    case Right => "Images/right.bmp"
  }

  /** Every slot has a bitmap of its own. */
  lemma ImagePathsDistinct(a: Slot, b: Slot)
    ensures ImagePath(a) == ImagePath(b) ==> a == b
  {
  }

  /** Every bitmap is a `.bmp` file in the fixed relative `Images/` directory. */
  lemma ImagePathsInImagesDirectory(s: Slot)
    ensures |ImagePath(s)| > 11 && ImagePath(s)[..7] == "Images/" && ImagePath(s)[|ImagePath(s)| - 4..] == ".bmp"
  {
  }

  /** True when every slot of a table holds a non-NULL handle. */
  predicate AllLoaded(table: seq<Option<Handle>>)
  {
    forall i :: 0 <= i < |table| ==> table[i].Some?
  }
}
