/** The keypress program's global state and its phases: `init`, `loadMedia`,
    the main loop, `close`, and `main`, which runs them in order. SDL is
    reduced to the values its calls return (a `Platform`) and to ghost
    traces of the calls whose only effect is on the screen or on memory. */
module Keypresses {
  import opened SurfaceTable
  import opened EventLoop

  /** What SDL answers during one run: whether `SDL_Init` succeeds, the window
      `SDL_CreateWindow` returns, the surface `SDL_GetWindowSurface` returns,
      and what `SDL_LoadBMP` returns for each path. */
  datatype Platform = Platform(
    initOk: bool,
    createdWindow: Option<Handle>,
    windowSurface: Option<Handle>,
    loadBmp: string -> Option<Handle>)

  /** The table `loadMedia` fills on this platform: slot by slot, what `SDL_LoadBMP`
      returns for that slot's bitmap. */
  function Table(p: Platform): (t: seq<Option<Handle>>)
    ensures |t| == TOTAL
    ensures forall s: Slot :: t[Index(s)] == p.loadBmp(ImagePath(s))
  {
    [p.loadBmp(ImagePath(Default)), p.loadBmp(ImagePath(Up)), p.loadBmp(ImagePath(Down)),
     p.loadBmp(ImagePath(Left)), p.loadBmp(ImagePath(Right))]
  }

  /** The surfaces blitted when the given states are displayed: for each, the table entry of its selected slot. */
  function Images(table: seq<Option<Handle>>, states: seq<LoopState>): (images: seq<Option<Handle>>)
    requires |table| == TOTAL
    ensures |images| == |states|
    ensures forall k :: 0 <= k < |states| ==> images[k] == table[Index(states[k].selection)]
    decreases |states|
  {
    if states == [] then []
    else Images(table, states[..|states| - 1]) + [table[Index(states[|states| - 1].selection)]]
  }

  /** Displaying one more state blits one more surface, after the earlier ones. */
  lemma ImagesSnoc(before: seq<Option<Handle>>, table: seq<Option<Handle>>, states: seq<LoopState>, st: LoopState)
    requires |table| == TOTAL
    ensures before + Images(table, states + [st]) == (before + Images(table, states)) + [table[Index(st.selection)]]
  {
    assert (states + [st])[..|states|] == states;
  }

  /** The states the main loop displays on this platform: none unless `init` and `loadMedia` succeed. */
  function Shown(p: Platform, frames: seq<seq<Event>>): seq<LoopState>
  {
    if p.initOk && p.createdWindow.Some? && AllLoaded(Table(p)) then Session(frames, Start) else []
  }

  /** The program's globals and the trace of SDL calls made on them. */
  class App {
    /** `gWindow` */
    var window: Option<Handle>
    /** `gScreenSurface` */
    var screen: Option<Handle>
    /** `gKeyPressSurfaces`, the table indexed by `Slot` values */
    const surfaces: array<Option<Handle>>
    /** `gCurrentSurface` */
    var current: Option<Handle>
    /** The slot `gCurrentSurface` was last copied from. */
    ghost var selection: Slot

    /** Paths passed to `SDL_LoadBMP`, in call order. */
    ghost var loads: seq<string>
    /** Source surfaces passed to `SDL_BlitSurface`, in call order. */
    ghost var blits: seq<Option<Handle>>
    /** Number of `SDL_UpdateWindowSurface` calls. */
    ghost var presents: nat
    /** Surfaces passed to `SDL_FreeSurface`, in call order. */
    ghost var freed: seq<Option<Handle>>
    /** Windows passed to `SDL_DestroyWindow`, in call order. */
    ghost var destroyed: seq<Option<Handle>>
    /** Number of `SDL_Quit` calls. */
    ghost var sdlQuits: nat
    /** Number of `close` calls. */
    ghost var closes: nat

    ghost predicate Valid()
      reads this
    {
      surfaces.Length == TOTAL
    }

    /** The globals as the program starts: every pointer NULL, nothing called yet. */
    constructor ()
      ensures Valid() && fresh(surfaces)
      ensures window == None && screen == None && current == None
      ensures forall i :: 0 <= i < surfaces.Length ==> surfaces[i] == None
      ensures loads == [] && blits == [] && presents == 0
      ensures freed == [] && destroyed == [] && sdlQuits == 0 && closes == 0
    {
      window, screen, current := None, None, None;
      selection := Default;
      surfaces := new Option<Handle>[TOTAL](_ => None);
      loads, blits, presents := [], [], 0;
      freed, destroyed, sdlQuits, closes := [], [], 0, 0;
    }

    /** `init`: starts SDL, creates the window and fetches its surface, stopping at the first failure. */
    method Init(p: Platform) returns (success: bool)
      modifies this`window, this`screen
      ensures success <==> p.initOk && p.createdWindow.Some?
      ensures window == if p.initOk then p.createdWindow else old(window)
      ensures screen == if success then p.windowSurface else old(screen)
    {
      success := true;
      if !p.initOk {
        success := false;
      } else {
        window := p.createdWindow;
        if window == None {
          success := false;
        } else {
          screen := p.windowSurface;
        }
      }
    }

    /** `loadSurface`: loads one bitmap; the result may be NULL. */
    method LoadSurface(p: Platform, path: string) returns (loaded: Option<Handle>)
      modifies this`loads
      ensures loaded == p.loadBmp(path)
      ensures loads == old(loads) + [path]
    {
      loads := loads + [path];
      loaded := p.loadBmp(path);
    }

    /** One block of `loadMedia`: loads a slot's bitmap into that slot and reports whether it is non-NULL. */
    method LoadSlot(p: Platform, s: Slot) returns (ok: bool)
      requires Valid()
      modifies surfaces, this`loads
      ensures surfaces[Index(s)] == p.loadBmp(ImagePath(s))
      ensures forall i :: 0 <= i < TOTAL && i != Index(s) ==> surfaces[i] == old(surfaces[i])
      ensures ok <==> surfaces[Index(s)].Some?
      ensures loads == old(loads) + [ImagePath(s)]
    {
      surfaces[Index(s)] := LoadSurface(p, ImagePath(s));
      ok := surfaces[Index(s)] != None;
    }

    /** `loadMedia`: loads the five images into their slots, going on after a failure,
        and succeeds only when every slot is non-NULL. */
    method LoadMedia(p: Platform) returns (success: bool)
      requires Valid()
      modifies surfaces, this`loads
      ensures surfaces[..] == Table(p)
      ensures success <==> AllLoaded(Table(p))
      ensures loads == old(loads) + [ImagePath(Default), ImagePath(Up), ImagePath(Down), ImagePath(Left), ImagePath(Right)]
    {
      success := true;
      var ok := LoadSlot(p, Default);
      if !ok {
        success := false;
      }
      ok := LoadSlot(p, Up);
      if !ok {
        success := false;
      }
      ok := LoadSlot(p, Down);
      if !ok {
        success := false;
      }
      ok := LoadSlot(p, Left);
      if !ok {
        success := false;
      }
      ok := LoadSlot(p, Right);
      if !ok {
        success := false;
      }
      assert surfaces[..] == [surfaces[0], surfaces[1], surfaces[2], surfaces[3], surfaces[4]];
    }

    /** `close`: frees every slot (NULL ones included) and NULLs it, destroys the window,
        NULLs it, and shuts SDL down. */
    method Close()
      requires Valid()
      modifies this, surfaces
      ensures Valid()
      ensures forall i :: 0 <= i < surfaces.Length ==> surfaces[i] == None
      ensures freed == old(freed) + old(surfaces[..])
      ensures window == None && destroyed == old(destroyed) + [old(window)]
      ensures sdlQuits == old(sdlQuits) + 1 && closes == old(closes) + 1
      ensures screen == old(screen) && current == old(current) && selection == old(selection)
      ensures loads == old(loads) && blits == old(blits) && presents == old(presents)
    {
      for i := 0 to TOTAL
        modifies surfaces, this`freed
        invariant freed == old(freed) + old(surfaces[..])[..i]
        invariant forall j :: 0 <= j < i ==> surfaces[j] == None
        invariant forall j :: i <= j < TOTAL ==> surfaces[j] == old(surfaces[j])
      {
        freed := freed + [surfaces[i]];
        surfaces[i] := None;
      }

      destroyed := destroyed + [window];
      window := None;

      sdlQuits := sdlQuits + 1;
      closes := closes + 1;
    }

    /** The inner loop of `main`: polls the queue until it is empty, latching the quit
        flag and repointing the current surface on each key press. */
    method DrainEvents(queue: seq<Event>, quit: bool) returns (quitAfter: bool)
      requires Valid() && current == surfaces[Index(selection)]
      modifies this`current, this`selection
      ensures LoopState(quitAfter, selection) == Drain(queue, LoopState(quit, old(selection)))
      ensures current == surfaces[Index(selection)]
    {
      quitAfter := quit;
      var pending := queue;
      while pending != []
        invariant Drain(pending, LoopState(quitAfter, selection)) == Drain(queue, LoopState(quit, old(selection)))
        invariant current == surfaces[Index(selection)]
        decreases |pending|
      {
        var e := pending[0];
        pending := pending[1..];
        match e {
          case Quit =>
            quitAfter := true;
          case KeyDown(k) =>
            match k {
              case ArrowUp =>
                current, selection := surfaces[Index(Up)], Up;
              case ArrowDown =>
                current, selection := surfaces[Index(Down)], Down;
              case ArrowLeft =>
                current, selection := surfaces[Index(Left)], Left;
              case ArrowRight =>
                current, selection := surfaces[Index(Right)], Right;
              case OtherKey(_) =>
                current, selection := surfaces[Index(Default)], Default;
            }
          case Other =>
        }
      }
    }

    /** Blits the current surface onto the window surface and presents the window. */
    method Present()
      modifies this`blits, this`presents
      ensures blits == old(blits) + [current] && presents == old(presents) + 1
    {
      blits := blits + [current];
      presents := presents + 1;
    }

    /** One iteration of the outer loop of `main`: drain the queue, then blit the
        current surface and present the window. */
    method Iterate(queue: seq<Event>, quit: bool, ghost table: seq<Option<Handle>>) returns (quitAfter: bool)
      requires Valid() && current == surfaces[Index(selection)] && table == surfaces[..]
      modifies this`current, this`selection, this`blits, this`presents
      ensures LoopState(quitAfter, selection) == Drain(queue, LoopState(quit, old(selection)))
      ensures current == surfaces[Index(selection)]
      ensures blits == old(blits) + [table[Index(selection)]] && presents == old(presents) + 1
    {
      quitAfter := DrainEvents(queue, quit);
      Present();
    }

    /** The outer loop of `main`, given the queue each iteration drains. It starts
        from the Default surface; each iteration drains, blits and presents once. */
    method GameLoop(frames: seq<seq<Event>>) returns (iterations: nat)
      requires Valid()
      modifies this`current, this`selection, this`blits, this`presents
      ensures var shown := Session(frames, Start);
        iterations == |shown| &&
        presents == old(presents) + |shown| &&
        blits == old(blits) + Images(surfaces[..], shown)
      ensures current == surfaces[Index(selection)]
      ensures var shown := Session(frames, Start);
        selection == if shown == [] then Default else shown[|shown| - 1].selection
    {
      var quit := false;
      current, selection := surfaces[Index(Default)], Default;
      iterations := 0;
      ghost var table, blits0, presents0 := surfaces[..], blits, presents;
      ghost var shown: seq<LoopState> := [];
      ghost var st := Start;
      while !quit && iterations < |frames|
        invariant st == LoopState(quit, selection) && current == surfaces[Index(selection)]
        invariant iterations <= |frames| && |shown| == iterations
        invariant shown + Session(frames[iterations..], st) == Session(frames, Start)
        invariant if shown == [] then st == Start else shown[|shown| - 1] == st
        invariant presents == presents0 + iterations
        invariant blits == blits0 + Images(table, shown)
        decreases |frames| - iterations
      {
        quit := Iterate(frames[iterations], quit, table);
        ghost var now := LoopState(quit, selection);
        SessionAdvance(frames, iterations, shown, st, now);
        ImagesSnoc(blits0, table, shown, now);
        shown, st := shown + [now], now;
        iterations := iterations + 1;
      }
      assert Session(frames[iterations..], st) == [];
      assert shown == Session(frames, Start) && surfaces[..] == table;
    }

    /** `main`: init, then loadMedia, then the loop, each only if the previous phase
        succeeded; `close` runs exactly once whichever phase failed, and frees every
        surface that was loaded. */
    method Run(p: Platform, frames: seq<seq<Event>>) returns (iterations: nat)
      requires Valid()
      requires window == None && forall i :: 0 <= i < surfaces.Length ==> surfaces[i] == None
      modifies this, surfaces
      ensures Valid()
      ensures closes == old(closes) + 1 && sdlQuits == old(sdlQuits) + 1
      ensures window == None && forall i :: 0 <= i < surfaces.Length ==> surfaces[i] == None
      ensures var started := p.initOk && p.createdWindow.Some?;
        loads == (if started then old(loads) + [ImagePath(Default), ImagePath(Up), ImagePath(Down), ImagePath(Left), ImagePath(Right)] else old(loads)) &&
        freed == old(freed) + (if started then Table(p) else old(surfaces[..])) &&
        destroyed == old(destroyed) + [if p.initOk then p.createdWindow else None]
      ensures var shown := Shown(p, frames);
        iterations == |shown| &&
        presents == old(presents) + |shown| &&
        blits == old(blits) + Images(Table(p), shown)
      ensures screen == if p.initOk && p.createdWindow.Some? then p.windowSurface else old(screen)
      ensures var shown := Session(frames, Start);
        var last := if shown == [] then Default else shown[|shown| - 1].selection;
        if p.initOk && p.createdWindow.Some? && AllLoaded(Table(p))
        then selection == last && current == Table(p)[Index(last)] && current in freed
        else selection == old(selection) && current == old(current)
    {
      iterations := 0;
      var started := Init(p);
      if !started {
        // init failed: straight to close
      } else {
        var loaded := LoadMedia(p);
        if loaded {
          iterations := GameLoop(frames);
        }
      }
      label BeforeClose:
      Close();
      assert blits == old@BeforeClose(blits) && presents == old@BeforeClose(presents);
    }
  }
}
