# Keypress surfaces: a verified model

This project models the keypress tutorial program of the Custom-Game-Engine
repository, `TestSDL/04_keypresses_proj/04_keypresses_ex_SDL.cpp`. It leaves SDL itself out.
The program keeps a five-slot table of image surfaces (`gKeyPressSurfaces`), indexed by the
`KeyPressSurfaces` enumeration. `loadMedia` fills the table from five bitmaps. The main loop
drains the event queue once per frame. Each arrow key points `gCurrentSurface` at its own
image and any other key points it at the default image. A quit request latches the `quit`
flag. After each drain the loop blits the current image and presents the window, once.
`close` frees every slot, NULLs it, destroys the window and shuts SDL down. `main` calls
`close` exactly once, whichever phase failed.

The model has three modules:

- `SurfaceTable` (`surface_table.dfy`) holds the enumeration (`Slot`, `Index`, `TOTAL`),
  opaque handles, NULL as `None`, and the bitmap path of each slot.
- `EventLoop` (`event_loop.dfy`) holds the pure behaviour of the loop:
  - `SlotFor` maps a key to its slot.
  - `Drain` folds one event queue into the `(quit, selection)` state.
  - `Session` gives the states the outer loop blits, one per iteration.
  - The lemmas state what these mean.
- `Keypresses` (`keypresses.dfy`) holds the class `App` with the program's globals:
  - The fields are `gWindow`, `gScreenSurface`, the `gKeyPressSurfaces` array and
    `gCurrentSurface`.
  - The methods are `init`, `loadSurface`, `loadMedia`, `close`, the two loops of `main`,
    and `main` itself (`Run`).
  - `DrainEvents`, `Iterate` and `GameLoop` are proved against `Drain` and `Session` of
    `EventLoop`, `LoadMedia` against `Table`, and `Init` against the `Platform` answers.
    `Close` and `Run` state the whole state they leave behind.

SDL is reduced to two things. A `Platform` value gives what its calls return: whether
`SDL_Init` succeeds, the window and window surface created, and what `SDL_LoadBMP` yields
per path. Ghost traces on `App` record the calls that only touch the screen or memory:
bitmaps loaded, surfaces blitted, presents, surfaces freed, windows destroyed, `SDL_Quit`
calls and `close` calls. The events delivered to each iteration of the outer loop are a
parameter, one queue per iteration.

## Model

| member | source | states |
|---|---|---|
| `SurfaceTable.Index` | TestSDL/04_keypresses_proj/04_keypresses_ex_SDL.cpp:12-19 | every enumerator's value is a valid index, below `KEY_PRESS_SURFACE_TOTAL` (5) |
| `SurfaceTable.FromIndex` | TestSDL/04_keypresses_proj/04_keypresses_ex_SDL.cpp:12-19 | every index below the total is the value of some enumerator |
| `SurfaceTable.IndexRoundTrip` | TestSDL/04_keypresses_proj/04_keypresses_ex_SDL.cpp:12-19 | distinct enumerators have distinct values; `FromIndex` inverts `Index` |
| `SurfaceTable.ImagePathsDistinct` | TestSDL/04_keypresses_proj/04_keypresses_ex_SDL.cpp:76-110 | each slot is loaded from a bitmap of its own |
| `SurfaceTable.ImagePathsInImagesDirectory` | TestSDL/04_keypresses_proj/04_keypresses_ex_SDL.cpp:77-109 | every slot's bitmap is a `.bmp` file in the relative `Images/` directory |
| `EventLoop.SlotFor` | TestSDL/04_keypresses_proj/04_keypresses_ex_SDL.cpp:183-199 | the key switch in both directions: a key selects Up, Down, Left or Right exactly when it is that arrow, and selects Default exactly when it is any other key |
| `EventLoop.Step` | TestSDL/04_keypresses_proj/04_keypresses_ex_SDL.cpp:175-200 | handling one event: `quit` is never reset and is set only by a quit request; only a key press moves the selection |
| `EventLoop.Drain` | TestSDL/04_keypresses_proj/04_keypresses_ex_SDL.cpp:173-201 | after polling a whole queue `quit` is still set if it was; the selection is either the one before or the slot of some key pressed in the queue |
| `EventLoop.DrainAppend` | TestSDL/04_keypresses_proj/04_keypresses_ex_SDL.cpp:173-201 | draining two queues in turn is draining their concatenation |
| `EventLoop.DrainQuit` | TestSDL/04_keypresses_proj/04_keypresses_ex_SDL.cpp:173-177 | after a drain `quit` is set iff it was set before or the queue held a quit request; it is never reset |
| `EventLoop.DrainWithoutKeysKeepsSelection` | TestSDL/04_keypresses_proj/04_keypresses_ex_SDL.cpp:173-201 | quit requests and other events never change the selection |
| `EventLoop.DrainSelectsLastKey` | TestSDL/04_keypresses_proj/04_keypresses_ex_SDL.cpp:173-201 | after a drain the selection is the slot of the last key pressed in the queue |
| `EventLoop.KeyAfterQuitStillSelects` | TestSDL/04_keypresses_proj/04_keypresses_ex_SDL.cpp:173-201 | a quit request does not stop the drain: in any queue with a quit request before the last key press, the drain ends with `quit` set and the slot of that last key selected |
| `EventLoop.Session` | TestSDL/04_keypresses_proj/04_keypresses_ex_SDL.cpp:165-214 | the loop runs at most one iteration per delivered queue, and at least one when it starts with `quit` clear |
| `EventLoop.SessionAdvance` | TestSDL/04_keypresses_proj/04_keypresses_ex_SDL.cpp:165-214 | one more iteration appends the drained state to the states displayed so far and leaves the remaining queues to be drained from it |
| `EventLoop.SessionStopsAtQuit` | TestSDL/04_keypresses_proj/04_keypresses_ex_SDL.cpp:165-214 | every iteration but the last is displayed with `quit` clear; the loop stops early only after the iteration that set `quit`, and that iteration still blits |
| `EventLoop.SessionIsOneDrain` | TestSDL/04_keypresses_proj/04_keypresses_ex_SDL.cpp:165-201 | the state displayed in iteration k is one drain of all events delivered up to iteration k |
| `EventLoop.SessionShowsDeliveredEvents` | TestSDL/04_keypresses_proj/04_keypresses_ex_SDL.cpp:156-201 | from the start state `Start` (`quit` clear, line 156; Default surface, line 162), the state in iteration k has `quit` iff a quit request has arrived so far; it shows the Default slot while no key has been pressed, and otherwise the slot of the last key pressed so far |
| `EventLoop.ArrowsThenQuitScenario` | TestSDL/04_keypresses_proj/04_keypresses_ex_SDL.cpp:162-214 | Up, Left, `z`, quit, one per iteration, blit the Up, Left, Default and Default images, then the loop ends |
| `Keypresses.Table` | TestSDL/04_keypresses_proj/04_keypresses_ex_SDL.cpp:72-117 | the loaded table has five slots, each holding what `SDL_LoadBMP` returns for that slot's bitmap |
| `Keypresses.Images` | TestSDL/04_keypresses_proj/04_keypresses_ex_SDL.cpp:206-213 | one blitted surface per displayed state, in order: the table entry of that state's selected slot |
| `Keypresses.ImagesSnoc` | TestSDL/04_keypresses_proj/04_keypresses_ex_SDL.cpp:206-213 | displaying one more state blits one more surface, after the earlier ones, which are kept |
| `Keypresses.App.constructor` | TestSDL/04_keypresses_proj/04_keypresses_ex_SDL.cpp:36-45 | the globals start NULL, with a table of `KEY_PRESS_SURFACE_TOTAL` slots |
| `Keypresses.App.Init` | TestSDL/04_keypresses_proj/04_keypresses_ex_SDL.cpp:47-70 | succeeds iff SDL starts and the window is created; `gWindow` is set only once SDL has started, and `gScreenSurface` only on success |
| `Keypresses.App.LoadSurface` | TestSDL/04_keypresses_proj/04_keypresses_ex_SDL.cpp:136-144 | returns what `SDL_LoadBMP` gives for the path, NULL included, and records one load attempt |
| `Keypresses.App.LoadSlot` | TestSDL/04_keypresses_proj/04_keypresses_ex_SDL.cpp:77-82 | one block of `loadMedia`: it fills its own slot, leaves the others alone, and reports whether the slot is non-NULL |
| `Keypresses.App.LoadMedia` | TestSDL/04_keypresses_proj/04_keypresses_ex_SDL.cpp:72-117 | attempts all five bitmaps in enumeration order, even after a failure; the table is the loaded table; succeeds iff every slot is non-NULL |
| `Keypresses.App.Close` | TestSDL/04_keypresses_proj/04_keypresses_ex_SDL.cpp:120-133 | frees every slot in order, NULL ones included, and leaves all slots NULL; destroys the window and NULLs it; calls `SDL_Quit` once; changes nothing else |
| `Keypresses.App.DrainEvents` | TestSDL/04_keypresses_proj/04_keypresses_ex_SDL.cpp:173-201 | the polling loop ends in the state `Drain` gives, and `gCurrentSurface` is still the table entry of the selected slot |
| `Keypresses.App.Present` | TestSDL/04_keypresses_proj/04_keypresses_ex_SDL.cpp:206-213 | one blit of the current surface and one present |
| `Keypresses.App.Iterate` | TestSDL/04_keypresses_proj/04_keypresses_ex_SDL.cpp:165-214 | one iteration of the outer loop: ends in the state `Drain` gives, then blits the table entry of the selected slot and presents once |
| `Keypresses.App.GameLoop` | TestSDL/04_keypresses_proj/04_keypresses_ex_SDL.cpp:156-214 | starts from `Start` (`quit` clear, the Default surface); runs one iteration per `Session` state; blits each iteration's selected table entry, in order, after the earlier blits; presents once per iteration; ends with the last displayed state's selection (Default if no iteration ran) and `gCurrentSurface` its table entry |
| `Keypresses.App.Run` | TestSDL/04_keypresses_proj/04_keypresses_ex_SDL.cpp:146-221 | `close` runs exactly once on every path; afterwards every slot and the window are NULL; every loaded surface is freed; bitmaps are loaded only after a successful `init`; earlier blits and presents are kept; `gScreenSurface` is the window surface once `init` succeeds; the loop runs (the states `Shown` gives) only when `init` and `loadMedia` both succeed (lines 147-154), blitting the selected table entries, one per `Session` state, and presenting once per iteration; after such a run `gCurrentSurface` is still the table entry of the last displayed selection, a surface `close` has freed, so it dangles; on any other path `gCurrentSurface` and the selection are unchanged |

## Left out

- SDL itself is left out: video start-up, window creation, bitmap decoding, blitting, presenting and freeing. Its answers are `Platform` values. Its effects are ghost traces on `App`. Pixels, formats and the 640×480 window size are not modelled.
- `printf` diagnostics and the constant exit code 0 of `main` are console output with no behavioural content.
- Key symbols are a datatype (the four arrows and `OtherKey(sym)`) rather than SDL's numeric `SDLK_*` values; the switch only tells the arrows apart from every other key.
- `SDL_LoadBMP` is a function of the path. The model cannot express one path loading differently on two calls, but `loadMedia` loads each path once anyway.
- Keypresses.App.GameLoop: the loop runs on a finite supply of per-iteration event queues. If the supply runs out before a quit request, the model stops there. The program would go on polling forever.
- Keypresses.App.Run: requires the globals in their zero-initialised start state (window and every slot NULL). That is the state a C++ program's globals start in.
- Timing and event delivery by the operating system are left out. `SDL_PollEvent` dequeues the front of the given queue.
- `TestSDL/TestSDL/01_hello_ex_SDL.cpp` and `TestSDL/02_image_proj/02_image_ex_SDL.cpp` are not modelled. They are straight-line SDL calls with no state beyond NULL checks.
- `TestSDL/03_events_proj/02_image_ex_SDL.cpp` and `TestSDL/05_stretch_proj/05_stretch_ex_SDL.cpp` are not modelled. Their drain loops receive key presses too but ignore them; they are the quit half of `Drain` on any queue (`EventLoop.DrainQuit`), with no selection to change. The 05 program's `loadSurface` format conversion and `SDL_BlitScaled` are pixel work inside SDL.
- Teardown is modelled as the code does it, not as tearing down only what was created. `close` calls `SDL_DestroyWindow` and `SDL_Quit` unconditionally, with a NULL window or after a failed `SDL_Init`. It leaves `gScreenSurface` and `gCurrentSurface` as they were.
