# Verified model of the r-os kernel core

r-os is a small x86-64 kernel with a graphical desktop. This project models the parts of it that keep
state and have something to promise about it, and proves those promises for every input, every run or
every reachable state.

- **Compositing window manager** (`pixels.dfy`, `drawing.dfy`, `compositor.dfy`, `window_manager.dfy`,
  `desktop.dfy`). `compositor.dfy` says, as plain values, what the screen is meant to show: strokes,
  window layers, taskbar, scene, sprite. The drawing loops, row copies, the z-ordered window list and the
  incrementally moved mouse sprite are proved against that. The main result: in every state reached by any
  run of window creations, console calls, focus changes, dirty marks, mouse events and composites,
  whenever no composite is pending, the frame buffer shows exactly what compositing from scratch would show.
- **Pixel text console** (`terminal.dfy`, `console.dfy`). The console never clears a cell before it draws
  into it. `terminal.dfy` therefore has two character grids: one that overstrikes, which the pixels refine
  for every character, and an ordinary overwriting one. They coincide as long as cells at or after the
  cursor are blank, which everything except `'\r'` preserves.
- **SPSC rings and mouse packets** (`ring.dfy`, `mouse.dfy`). Push and pop are four atomic steps each, in
  any interleaving. The ring refines a FIFO of at most 127 values, and behind the packet assembler the
  bytes of the mouse become the events the consumer pops.
- **Scheduler and context switch** (`scheduler.dfy`, `context_switch.dfy`, `tasks.dfy`, `task_runs.dfy`).
  Round-robin selection with a ranking argument for fairness, a word-addressed machine for
  `switch_context` and the initial frame, and the two together: over any m yields, m tasks being awake,
  every awake task is resumed once, as it was left.
- **Boot frame allocator** (`frames.dfy`, `bits.dfy`). The iterator hands out exactly a set described
  without reference to the iterator; for sorted regions that set is complete.
- **Number printing** (`numbers.dfy`) and the **shell's line editor** (`shell.dfy`) over the console.

Classes mirror the kernel's own structures and are updated in place; buffers are arrays. Every drawing
module speaks of the colour that `ReadPixel` sees. A `font` parameter stands for the glyph table, with the
glyph of `'?'` for characters it does not have.

Results that differ from what one might expect of the code:

- A glyph is struck over what is in the cell, so text after `'\r'` is not overwritten but overlaid
  (`OverstrikeIff` gives the exact condition, `ReturnOverstrikes` an instance).
- Showing and hiding the text cursor restores the buffer exactly when the cursor's column was black before
  (`CursorRoundTripIff`); in console use it always is (`HideUndoesShow`).
- The four leftmost columns of a focused taskbar label's highlight, and no others, belong for clicks to the
  label before it (`HighlightOverhang`); the title text itself never does (`TitleInsideLabel`).
- On a window too small for a character cell the text cursor can damage the border: exactly on cramped ones
  (`CursorSparesChromeIff`, `CrampedCursorHitsBorder`).
- If the region list is not sorted by start, frames are lost (`UnsortedLosesFrames`); which ones is exactly
  what `Reachable` says.
- Once prompt and line have exceeded one row, the row does not show the line again before the next prompt,
  whatever is typed or taken back; `Shell.LineMatchesScreen` is an if-and-only-if (`OverflowFallsBehind`,
  `TypedBehind`, `RubbedOutBehind`).
- The comment above `handle_mouse` (kernel/src/wm.rs:361-364) speaks of a returned flag and of restoring
  from the back buffer; the code returns nothing and restores from `saved_bg`. The model follows the code.

## Model

| member | source | states |
|---|---|---|
| Pixels.PutPixel | kernel/src/framebuffer.rs:97-144 | in the Rgb, Bgr and U8 formats, the bytes at (y * stride + x) * bpp hold the colour in the format's order; exactly that pixel, if it exists, shows it, and no other pixel changes colour |
| Pixels.ReadIs | kernel/src/framebuffer.rs:146-182 | which three bytes, or one byte, a pixel's colour is, in each format |
| Pixels.ShadeIs | kernel/src/framebuffer.rs:126-128 | Rgb and Bgr keep every colour; U8 shows the grey of the average and keeps greys |
| Pixels.OffsetsDisjoint | kernel/src/framebuffer.rs:102-103 | distinct on-surface pixels occupy disjoint bytes |
| Pixels.PutBackChangesNothing | kernel/src/framebuffer.rs:97-182 | putting back what read_pixel returned changes no colour, also for U8 |
| Pixels.FullBufferHasPixel | kernel/src/framebuffer.rs:146-156 | in a full-size buffer the bounds check never rejects an on-surface pixel |
| Pixels.RowApart | kernel/src/wm.rs:521-530 | a pixel outside a clipped pixel run has its bytes outside the run's bytes |
| Pixels.RowShownFromBytes | kernel/src/wm.rs:521-530 | copying the bytes of a clipped row shows the source's colours there and spills into no neighbouring row |
| Pixels.CopyRow | kernel/src/wm.rs:521-530 | the guarded row copy shows the source row, or changes nothing if a range is out of bounds |
| Drawing.RectIs | kernel/src/framebuffer.rs:195-198 | a rectangle of one pixel is that pixel, and rectangles side by side join without sharing one |
| Drawing.OutlineIsBorder | kernel/src/framebuffer.rs:208-220 | on the surface an outline is its rectangle without its inside |
| Drawing.OneBit | kernel/src/framebuffer.rs:289-294 | the lowest bit of a glyph row is the leftmost column, the highest the rightmost |
| Drawing.LitIs | kernel/src/framebuffer.rs:285-307 | a glyph row is two pixel rows, the first row on top, and nothing outside 8 by 16 is lit; unknown characters look like '?' |
| Drawing.TextIs | kernel/src/framebuffer.rs:322-326 | character k of a text stands 8 * k pixels to the right |
| Drawing.FillRect | kernel/src/framebuffer.rs:184-202 | exactly the existing pixels of the rectangle get the colour |
| Drawing.DrawRectOutline | kernel/src/framebuffer.rs:204-221 | exactly the existing pixels of the clipped outline get the colour; empty rectangles draw nothing |
| Drawing.DrawCharAt | kernel/src/framebuffer.rs:275-310 | exactly the lit pixels of the 8 by 16 cell get the colour; unlit ones are left alone |
| Drawing.DrawText | kernel/src/framebuffer.rs:312-327 | the union of the characters' lit pixels at 8-pixel steps, nothing else |
| Terminal.StepKeepsBlank | kernel/src/framebuffer.rs:383-416 | every character but '\r' keeps all cells at or after the cursor blank, and then overstriking equals overwriting |
| Terminal.RunKeepsBlank | kernel/src/framebuffer.rs:495-499 | so does every text without '\r' |
| Terminal.PlayIsOverwriting | kernel/src/framebuffer.rs:367-416 | any run of clears and characters without '\r' is a run of the ordinary overwriting terminal |
| Terminal.NewlineGoesDown | kernel/src/framebuffer.rs:387-394 | a newline goes one row down and changes no cell, and only on the last row scrolls, keeping the finished row just above the cursor |
| Terminal.StepShowsLines | kernel/src/framebuffer.rs:383-416 | if the screen shows the last lines of what was written, it does so after one more character, newline, wrap or backspace |
| Terminal.ScreenShowsLines | kernel/src/framebuffer.rs:367-416 | after any run of clears and characters without '\r' on a new screen, row i shows line i while all lines fit, else the last lines are shown; everything else is blank and the cursor is behind the last line |
| Terminal.OverstrikeIff | kernel/src/framebuffer.rs:404-414 | a printed character replaces what was in its cell if and only if that cell held nothing else |
| Terminal.ReturnOverstrikes | kernel/src/framebuffer.rs:395-397 | after '\r' the console shows both characters, an overwriting terminal only the second |
| Terminal.LineEnds | kernel/src/framebuffer.rs:379-391 | whatever came before, a newline or a clear leaves the cursor at column 0 |
| Consoles.Console.constructor | kernel/src/framebuffer.rs:343-365 | a new console has as many rows and columns as fit, displays the blank grid, and changes nothing outside its content |
| Consoles.Console.Clear | kernel/src/framebuffer.rs:367-381 | afterwards the console displays the blank grid with the cursor at the origin |
| Consoles.Console.WriteChar | kernel/src/framebuffer.rs:383-416 | one character is one step of the character grid, and the pixels keep displaying exactly that grid; nothing outside the content changes |
| Consoles.Console.WriteStr | kernel/src/framebuffer.rs:495-499 | the same for a whole text |
| Consoles.Console.ClearChar | kernel/src/framebuffer.rs:424-432 | exactly the cell's pixels turn black |
| Consoles.Console.ScrollUp | kernel/src/framebuffer.rs:456-493 | content rows move up by one text line in place, the last text line's worth turns black, nothing outside the content changes, for every content height |
| Consoles.Console.ScrollRow | kernel/src/framebuffer.rs:466-477 | one step of the in-place copy takes its row from one text line below |
| Consoles.RowInside | kernel/src/framebuffer.rs:472-476 | content rows stay inside the buffer, so the length guard skips none |
| Consoles.ScrolledShows | kernel/src/framebuffer.rs:456-493 | if the pixels displayed the grid before scrolling they display the scrolled grid afterwards |
| Consoles.CellAppears | kernel/src/framebuffer.rs:418-422 | what a displayed grid looks like: the character in row r, column c has its dots at 8 * c and 16 * r of the content |
| Consoles.CursorIsLeftOfCell | kernel/src/framebuffer.rs:434-441 | the text cursor is the leftmost pixel column of the next cell |
| Consoles.Struck | kernel/src/framebuffer.rs:404-422 | drawing a glyph makes the pixels display the grid with that character struck in the cursor's cell |
| Consoles.Console.DrawCursor | kernel/src/framebuffer.rs:434-443 | a white one-pixel column is drawn unless it is shown already, and the console then displays grid and cursor |
| Consoles.Console.EraseCursor | kernel/src/framebuffer.rs:445-454 | under the blank-from-cursor invariant the console displays the bare grid again |
| Consoles.CursorRoundTripIff | kernel/src/framebuffer.rs:434-454 | show then hide restores all colours of the buffer if and only if the cursor's column was black |
| Consoles.HideUndoesShow | kernel/src/framebuffer.rs:434-454 | after any '\r'-free session, hide undoes show for the whole buffer, also with the cursor past the last column |
| Consoles.Session | kernel/src/framebuffer.rs:367-416 | any run of clears and characters leaves the pixels displaying the resulting grid; without '\r' it is the overwriting terminal's and, on a blank console, shows the last lines of what was written |
| Compositor.Topmost | kernel/src/wm.rs:389-400 | the last covering window in painter's order, or -1 if none covers the point |
| Compositor.LayeredStep | kernel/src/wm.rs:342-345 | blitting one more window shows its own pixel where it covers and leaves the rest |
| Compositor.SceneIs | kernel/src/wm.rs:329-345 | at every point, taskbar included: the topmost window covering it, else the taskbar, else the background |
| Compositor.TopmostPixel | kernel/src/wm.rs:510-531 | pixel (i, j) of the topmost window is shown i columns right of and j rows below its corner |
| Compositor.SpriteOnTop | kernel/src/framebuffer.rs:509-527 | the sprite's table stands upright with its corner at the cursor; 1 is black, 2 is white, all else shows the scene |
| Compositor.ChromeIs | kernel/src/wm.rs:52-94 | what chrome is at every pixel: title over border over title bar, in these colours |
| Compositor.ContentIs | kernel/src/wm.rs:41-49 | content keeps six pixels from the edges and from the title bar |
| Compositor.InteriorIs | kernel/src/wm.rs:61-86 | the interior is what is left without border and title bar |
| Compositor.PanelIs | kernel/src/wm.rs:451-478 | what the taskbar's panel is at every pixel |
| Compositor.LabelIs | kernel/src/wm.rs:481-506 | what a label is at every pixel: title over highlight, which only the focused window has |
| Compositor.LabelStarts | kernel/src/wm.rs:480-505 | labels start at column 54 and advance by eight columns a title byte and sixteen |
| WindowManagers.LastLabel | kernel/src/wm.rs:481-506 | the taskbar is the panel and then the labels from left to right |
| Compositor.TaskbarClickIs | kernel/src/wm.rs:385-388 | in the taskbar's rows a click is for the window whose label column it hits, and for none exactly if it hits none |
| Compositor.ClickIsWhatIsShown | kernel/src/wm.rs:381-405 | above the taskbar, a click is for the window whose own pixel the scene shows there, and for none exactly when the backdrop shows |
| Compositor.TitleInsideLabel | kernel/src/wm.rs:467-506 | every column in which window i's title is drawn is resolved to label i |
| Compositor.LabelHitUnique | kernel/src/wm.rs:417-429 | no column belongs to two labels |
| Compositor.LabelStrip | kernel/src/wm.rs:417-429 | some label is hit exactly within the strip from the first label's left reach to the last label's end |
| Compositor.HighlightOverhang | kernel/src/wm.rs:489-502 | a column of the focused highlight is hit as its own label if and only if the label is the first one or the column is not one of the four leftmost; those are hit as the previous label |
| Compositor.TopStrokeConcat | kernel/src/wm.rs:444-507 | painting two lists of shapes one after the other shows the top shape of the second list, else of the first |
| WindowManagers.Window.DrawChrome | kernel/src/wm.rs:52-94 | title bar, border and title are painted in that order, and no pixel below the title bar and inside the border changes |
| WindowManagers.ChromeSparesContent | kernel/src/wm.rs:41-94 | no chrome stroke covers a pixel below the title bar and inside the border, for any window size |
| WindowManagers.ChromeTellsFocus | kernel/src/wm.rs:63-70 | a window of at least 3 by 3 pixels cannot carry focused and unfocused chrome at once |
| WindowManagers.CursorState.SaveBackground | kernel/src/wm.rs:129-138 | all 192 saved colours are those under the sprite's box |
| WindowManagers.CursorState.RestoreBackground | kernel/src/wm.rs:140-154 | exactly the opaque sprite pixels get their saved colours back, and nothing happens while invisible |
| WindowManagers.CursorState.Draw | kernel/src/wm.rs:156-168 | exactly the opaque sprite pixels on the screen show the sprite |
| WindowManagers.CursorState.ApplyDelta | kernel/src/wm.rs:170-176 | the position moves by (dx, -dy) and stops at the screen's edges |
| WindowManagers.ClampIsNearest | kernel/src/wm.rs:173-174 | the clamped position is the nearest point of the screen |
| WindowManagers.BlitWindow | kernel/src/wm.rs:510-531 | every on-screen pixel the window covers shows the window's own pixel, every other pixel is unchanged |
| WindowManagers.RowFits | kernel/src/wm.rs:526-529 | the length guards never skip a row that has pixels |
| WindowManagers.DrawTaskbar | kernel/src/wm.rs:444-507 | the taskbar is the panel and one label per window at the accumulated offsets |
| WindowManagers.WindowManager.constructor | kernel/src/wm.rs:197-215 | an empty, valid manager with a composite pending |
| WindowManagers.WindowManager.CreateWindow | kernel/src/wm.rs:217-268 | a fresh id, the title cut to 32 bytes, the window black inside its chrome and on top of the unchanged others, focus only if nothing had it, chrome right on every window, composite pending |
| WindowManagers.WindowManager.MarkDirty | kernel/src/wm.rs:290-295 | exactly the window with this id, if it exists, becomes dirty; a composite is pending in any case |
| WindowManagers.WindowManager.FocusWindow | kernel/src/wm.rs:297-326 | an existing window moves to the top, the others keep their order, exactly the focused window has focused chrome, no pixel inside any chrome changes, exactly the two repainted windows become dirty; refocusing changes nothing |
| WindowManagers.PromotedRegistered | kernel/src/wm.rs:312-316 | moving a window to the end keeps the same windows, distinct ids and unshared buffers |
| WindowManagers.PromotedOnTop | kernel/src/wm.rs:312-316 | a window with the id ends up last in the list; without one nothing moves |
| WindowManagers.PromotedKeepsOrder | kernel/src/wm.rs:312-316 | any two other windows keep their order |
| WindowManagers.RaisedIsShown | kernel/src/wm.rs:342-345 | wherever the raised window reaches it is the topmost, it is what the scene shows and what a click is for |
| WindowManagers.FocusMoved | kernel/src/wm.rs:302-322 | repainting the old and then the new focused window leaves focused chrome on the new one alone |
| WindowManagers.WindowManager.ComposeScene | kernel/src/wm.rs:329-345 | the back buffer shows, at each pixel, the topmost window there, else the taskbar, else the background |
| WindowManagers.WindowManager.Composite | kernel/src/wm.rs:329-359 | afterwards the frame buffer shows the desk with the sprite on top, the scene under the sprite is saved, nothing is pending and no window is dirty |
| WindowManagers.SpriteOverScene | kernel/src/wm.rs:347-350 | the sprite drawn over the scene is what the desk should show |
| WindowManagers.RestoredScene | kernel/src/wm.rs:364-376 | putting back the saved pixels uncovers exactly the scene |
| WindowManagers.SavedFromScene | kernel/src/wm.rs:348-348 | what is saved from the scene is the scene under every on-screen sprite pixel |
| WindowManagers.WindowManager.HandleTaskbarClick | kernel/src/wm.rs:417-433 | the click focuses the window whose label column was hit, and none outside the strip |
| WindowManagers.WindowManager.Click | kernel/src/wm.rs:381-406 | the click's target is focused and, if that changes the focus, raised; focus and z-order are untouched if there is none; taskbar clicks always make a composite pending |
| WindowManagers.WindowManager.HandleMouse | kernel/src/wm.rs:363-415 | the incremental path keeps the cache invariant: unless a composite is pending the screen shows the desk with the sprite at the new position and the scene below is saved; no window's content changes |
| WindowManagers.WindowManager.OnMouse | kernel/src/wm.rs:634-645 | after each delivered event the frame buffer is up to date for the new cursor position and the click's effect on focus and z-order |
| WindowManagers.ShowsDeskUnique | kernel/src/wm.rs:329-359 | a desk and a cursor position determine every colour of the screen |
| Desktop.ChromeSurvives | kernel/src/wm.rs:40-94 | painting that stays clear of the title bar and border leaves every window's chrome as its focus calls for |
| Desktop.CursorSparesChromeIff | kernel/src/framebuffer.rs:434-443 | for every state of a window's console, the text cursor stays clear of the chrome if and only if the window is not cramped, a condition on its width and height |
| Desktop.CrampedCursorHitsBorder | kernel/src/framebuffer.rs:434-443 | in every cramped window showing the text cursor does damage the border |
| Desktop.RoomyIs | kernel/src/wm.rs:41-49 | a window has room for a character cell exactly from 20 by 52 pixels on |
| Desktop.StripBlack | kernel/src/wm.rs:41-49 | the columns between content and border are black unless a text cursor is shown there |
| Desktop.ReadsKept | kernel/src/wm.rs:51-94 | repainting chrome does not disturb what a console shows, its text cursor included |
| Desktop.ShellCanStart | kernel/src/wm.rs:270-276 | a window with a readable console meets everything the shell's line editor starts from |
| Desktop.InitConsole | kernel/src/wm.rs:270-276 | the window gets a blank console of its own that can be read; the other windows, all chrome and the pending flag stay as they were |
| Desktop.ScreenAfterIs | kernel/src/wm.rs:582-631 | a written text is played character by character, a clear is a clear |
| Desktop.ConsoleDraw | kernel/src/wm.rs:582-631 | the text arrives in the grid of the window with that id, or its grid is cleared; an unknown window or one without a console is left alone; all chrome stays, what could be read stays readable, a composite is pending in any case |
| Desktop.ConsoleCursor | kernel/src/wm.rs:597-619 | what could be read stays readable with the text cursor shown or hidden, grids are untouched, chrome survives exactly in windows that are not cramped |
| Desktop.RunActions | kernel/src/wm.rs:217-645 | in every state reached by creations, new consoles, console writes and clears, text cursor switches, focus changes, dirty marks, composite requests, mouse events and composites: the cache invariant holds; chrome is right if no window is cramped; every console can be read if consoles are drawn on only while their cursor is hidden and without '\r' |
| Desktop.ShellIsTidy | kernel/src/shell.rs:21-38 | hiding the text cursor, writing and showing it again, any number of times, meets the conditions of the runs |
| Desktop.BootIsProper | kernel/src/main.rs:117-126 | so do the kernel's first windows, consoles and composite |
| Desktop.IncrementalEqualsComposite | kernel/src/wm.rs:329-415 | after any such run, if no composite is pending, as after a composite and any mouse events without the left button, the frame buffer has the colours a composite from scratch produces |
| Desktop.BootIsSteady | kernel/src/wm.rs:197-215 | a fresh window manager is a state such runs can start from |
| Rings.StepRefinesFifo | kernel/src/keyboard.rs:37-60 | publishing the head appends one value to the FIFO, publishing the tail removes the oldest, every other atomic step leaves it as it is |
| Rings.InvNext | kernel/src/keyboard.rs:37-60 | every atomic step of either side keeps the ring invariant |
| Rings.RingIsFifo | kernel/src/keyboard.rs:37-60 | in every reachable interleaving, popped followed by live is accepted, at most 127 are live, and accepted is offered without the dropped |
| Rings.WriterNeverTouchesReadersSlot | kernel/src/keyboard.rs:38-58 | the slot a mid-push producer is about to write is no slot the consumer may read |
| Rings.DropsAndMisses | kernel/src/keyboard.rs:40-56 | a push drops exactly if 127 values are held when the tail is loaded, a pop returns None exactly if none is held when the head is loaded |
| Rings.RingBuffer.Push | kernel/src/keyboard.rs:37-47 | a whole push, whatever the consumer is in the middle of, appends the value unless 127 are held |
| Rings.RingBuffer.Pop | kernel/src/keyboard.rs:52-60 | a whole pop, whatever the producer is in the middle of, takes the oldest value, or None exactly if there is none |
| Mouse.Masks | kernel/src/mouse.rs:107-143 | which bit each mask of the packet format tests |
| Mouse.DecodeIs | kernel/src/mouse.rs:121-151 | a packet is dropped if and only if its first byte is 64 or more; else it is the event of its binary digits, with nine-bit two's complement movements |
| Mouse.DecodeEncode | kernel/src/mouse.rs:121-151 | every event with dx and dy in -256..255 is decoded from its packet, whose sync bit is set |
| Mouse.EncodeDecode | kernel/src/mouse.rs:121-151 | conversely every marked packet without overflow is the encoding of the event it decodes to |
| Mouse.PacketStream | kernel/src/mouse.rs:101-162 | from a packet boundary a stream of packets yields exactly the events of those whose first byte is below 64, in order, and ends at a boundary |
| Mouse.UnmarkedAreSkipped | kernel/src/mouse.rs:105-112 | at a packet boundary bytes without bit 3 are skipped |
| Mouse.BadStateResets | kernel/src/mouse.rs:157-160 | an impossible state resets with the next byte |
| Mouse.EventsRoundTrip | kernel/src/mouse.rs:101-162 | the encodings of any event list produce exactly that list |
| Mouse.PacketAssembler.AddByte | kernel/src/mouse.rs:101-162 | one byte advances the assembler as specified and keeps its state in 0..2; the event it completes, if any, is pushed as a whole and is in the queue afterwards unless 127 were held |
| Mouse.FeedStream | kernel/src/mouse.rs:101-162 | a burst of any bytes appends exactly its events, as many as there is room for |
| Mouse.HandlerIsActions | kernel/src/mouse.rs:101-162 | one call of the handler is one byte action and the atomic steps of its push in the combined system |
| Mouse.ActInv | kernel/src/mouse.rs:53-162 | every byte and every atomic step of either side keeps: offered events and the one in flight are the events of the bytes sent |
| Mouse.DropsIffFull | kernel/src/mouse.rs:53-63 | in every interleaving nothing is dropped if and only if no push found 127 events when it looked for room |
| Mouse.ConsumerSeesTheEvents | kernel/src/mouse.rs:53-162 | in every interleaving of any bytes with the consumer's pops, what was popped and what is queued are the events of the bytes but for the one in flight and the dropped ones, in order |
| Mouse.EncodedEventsArrive | kernel/src/mouse.rs:53-162 | when the bytes are the encodings of an event list, that list arrives, all of it if nothing was dropped |
| Schedulers.Scheduler.Spawn | kernel/src/task.rs:90-143 | a fresh id, one Ready task appended, the others untouched |
| Schedulers.Scheduler.RegisterIdle | kernel/src/task.rs:213-237 | the idle task becomes task 0 and the only Running one, and it is current |
| Schedulers.Scheduler.YieldNow | kernel/src/task.rs:158-209 | the next awake task in cyclic order becomes current and the only Running one; nothing changes before the scheduler runs or if no other task is awake |
| Schedulers.Scheduler.FindAwake | kernel/src/task.rs:177-188 | the search once around finds the next awake task if there is one |
| Schedulers.SuccessorRank | kernel/src/task.rs:177-188 | the chosen task is the next among the awake tasks, wrapping around |
| Schedulers.AfterRank | kernel/src/task.rs:158-196 | n yields move on by n awake tasks and put none to sleep |
| Schedulers.RoundRobinIsFair | kernel/src/task.rs:170-196 | any m consecutive yields, m tasks being awake, make each awake task current exactly once, the current one last |
| ContextSwitch.Cpu.SwitchContext | kernel/src/task.rs:25-43 | the pushes store the frame on the outgoing stack, the pops load the incoming task's registers from its own |
| ContextSwitch.Cpu.SpawnFrame | kernel/src/task.rs:97-140 | the frame built for a new task is the one switch_context would have left for a task at its entry with zero registers |
| ContextSwitch.Suspend | kernel/src/task.rs:27-34 | what is suspended is what resuming loads, and only the seven words below the stack pointer change |
| ContextSwitch.FrameLayout | kernel/src/task.rs:100-108 | the order of the seven words of a suspended frame |
| ContextSwitch.AlignedTopFits | kernel/src/task.rs:109-111 | masking the stack top aligns it to 16 bytes and loses less than 16 bytes of the block |
| ContextSwitch.StackFits | kernel/src/task.rs:97-113 | the initial frame lies inside the task's own block |
| ContextSwitch.RunWellFormed | kernel/src/task.rs:97-140 | in every run stacks stay disjoint and every suspended task has its frame on its own stack |
| ContextSwitch.StaysSuspended | kernel/src/task.rs:194-207 | no computation, spawn or switch to another task touches a suspended task's frame |
| ContextSwitch.ResumesAsSuspended | kernel/src/task.rs:25-43 | in any run a task switched back in has the rsp, rbp, rbx, r12-r15 and resume address it switched out with |
| ContextSwitch.StartsFresh | kernel/src/task.rs:97-140 | in any run a spawned task first runs at its entry, on its own stack, with the six registers zero |
| Tasks.Yield | kernel/src/task.rs:158-209 | the machine takes exactly the switch to the task the round robin chose, or neither machine nor table changes |
| Tasks.Spawn | kernel/src/task.rs:90-143 | table entry and initial frame belong together; to a running system it is one spawn action |
| Tasks.Start | kernel/src/task.rs:213-237 | inserting the idle task at index 0 shifts the table and leaves every spawned task with its own context |
| TaskRuns.YieldIsAnEvent | kernel/src/task.rs:158-209 | a call of yield_now with its context switch is one Yield of the joint runs |
| TaskRuns.TableAfter | kernel/src/task.rs:158-209 | in any run of computing and yielding, table and machine stay coherent and the table depends on the number of yields alone |
| TaskRuns.EveryAwakeTaskResumes | kernel/src/task.rs:25-43 | in any run with as many yields as awake tasks, each awake task but the running one gets exactly one turn and resumes with the registers it was suspended with |
| TaskRuns.FirstTaskReturns | kernel/src/task.rs:25-43 | the task running at first comes back with the last of these yields alone, with the registers it had when it yielded |
| Bits.AndHighMask | kernel/src/memory.rs:108-110 | and-ing with a mask of all high bits rounds down to a multiple of the power of two |
| Frames.AlignUpIsLeastMultiple | kernel/src/memory.rs:108-110 | for a power of two align_up is the least multiple not below the address |
| Frames.UsableFrameIter.constructor | kernel/src/memory.rs:59-67 | the iterator starts in front of the first frame to hand out |
| Frames.UsableFrameIter.AdvanceToUsable | kernel/src/memory.rs:71-83 | moving to the next usable region skips no frame that is to be handed out |
| Frames.UsableFrameIter.Next | kernel/src/memory.rs:89-105 | the least frame left is handed out; None means there is none, and stays |
| Frames.AllFrames | kernel/src/memory.rs:89-105 | calling next until None terminates and yields exactly the reachable frames, in strictly ascending order, for any region list |
| Frames.ReachableIsInside | kernel/src/memory.rs:89-105 | every frame handed out is 4 KiB-aligned and wholly inside a Usable region |
| Frames.SortedIsComplete | kernel/src/memory.rs:71-105 | for regions sorted by start, overlapping or not, a frame is handed out if and only if it lies wholly inside some Usable region |
| Frames.UnsortedLosesFrames | kernel/src/memory.rs:77-77 | out of order, a frame of a lower region is lost |
| Numbers.WriteU64Decimal | kernel/src/framebuffer.rs:631-654 | as much of the decimal digits as fits is appended, the rest of the buffer is unchanged |
| Numbers.WrittenIs | kernel/src/framebuffer.rs:647-652 | byte by byte: what fits is stored from the position on, nothing else is touched |
| Numbers.DecimalRoundTrip | kernel/src/framebuffer.rs:639-652 | parsing the digits returns the value |
| Numbers.DecimalNoLeadingZero | kernel/src/framebuffer.rs:632-646 | the first digit is zero only for zero |
| Numbers.U64FitsTwentyDigits | kernel/src/framebuffer.rs:639-646 | no 64-bit value needs more than the 20 bytes of the digit buffer |
| Numbers.WriteHex | kernel/src/framebuffer.rs:604-629 | prefix and digits are appended up to the limit, nothing at all without room for the prefix |
| Numbers.HexTextIs | kernel/src/framebuffer.rs:605-611 | 0x and the digits if they fit, nothing without room for the prefix |
| Numbers.HexDigitIs | kernel/src/framebuffer.rs:618-622 | digits are 0 to 9 and then a to f |
| Numbers.HexNoLeadingZero | kernel/src/framebuffer.rs:613-616 | beyond four digits there is no leading zero |
| Numbers.HexStep | kernel/src/framebuffer.rs:613-627 | each nibble appends its digit except leading zeros left of the last four places |
| Numbers.HexRoundTrip | kernel/src/framebuffer.rs:604-629 | parsing the hexadecimal digits returns the value |
| Numbers.HexFits | kernel/src/framebuffer.rs:613-627 | a 64-bit value is printed with 4 to 16 hexadecimal digits |
| Numbers.FormatSize | kernel/src/framebuffer.rs:572-591 | number and unit are complete: the 24-byte guard never drops a byte |
| Numbers.SizeIs | kernel/src/framebuffer.rs:573-581 | the number is the size in whole units of the suffix, and the unit is the largest that fits |
| Numbers.FormatAddrRange | kernel/src/framebuffer.rs:593-602 | both addresses are complete: the 40-byte guards never drop a byte |
| Numbers.RangeRoundTrip | kernel/src/framebuffer.rs:593-602 | both addresses can be read back from the text |
| Shells.WhatCommandsDo | kernel/src/shell.rs:82-94 | which reply each of the five commands gets, and any other word; only halt halts and only clear clears |
| Shells.WordsOf | kernel/src/shell.rs:76-80 | a command and its arguments are read as such, whatever the padding |
| Shells.WordsOfNothing | kernel/src/shell.rs:76-80 | a line of spaces is the empty command |
| Shells.EchoEchoes | kernel/src/shell.rs:105-108 | echo replies exactly its arguments and a newline |
| Shells.CommandsEndTheLine | kernel/src/shell.rs:75-124 | every command that returns leaves the console at column 0 and writes no '\r' |
| Shells.RepliesAreWholeLines | kernel/src/shell.rs:82-124 | every textual reply ends with a newline, whatever was typed |
| Shells.TypedTextShown | kernel/src/shell.rs:62-70 | printable text typed within the row extends the line shown by exactly that text |
| Shells.RuboutShown | kernel/src/shell.rs:56-61 | backspace, space, backspace takes exactly the last character off the line shown, also at the end of a full row |
| Shells.OverflowFallsBehind | kernel/src/framebuffer.rs:404-414 | the first character past the row wraps and leaves the cursor behind the line |
| Shells.TypedBehind | kernel/src/shell.rs:62-70 | a cursor behind the line stays behind it when more is typed |
| Shells.RubbedOutBehind | kernel/src/shell.rs:56-61 | and when characters are taken back |
| Shells.TypedShownIff | kernel/src/shell.rs:62-70 | typing keeps the line shown if and only if the line still fits and always has |
| Shells.WidestIsLongest | kernel/src/shell.rs:45-73 | the width that decides it is that of the longest line any prefix of the keys has made since the prompt |
| Shells.TypedThenRubbedOut | kernel/src/shell.rs:56-71 | typing fills the edit buffer and as many backspaces or deletes empty it again |
| Shells.EditedIs | kernel/src/shell.rs:45-73 | what each character does to the line: space to tilde are added up to 256, Enter empties it, backspace and delete take one off, all else is ignored |
| Shells.EnterShows | kernel/src/shell.rs:47-55 | Enter puts a newline and then the reply on the screen, or clears it |
| Shells.Shell.Execute | kernel/src/shell.rs:75-130 | the reply appears on the console as specified, and halt is the only command that does not return |
| Shells.Shell.PrintPrompt | kernel/src/shell.rs:41-43 | on column 0 the prompt starts a row that matches the empty line |
| Shells.Shell.Enter | kernel/src/shell.rs:47-55 | unless the command halts, an empty line and a fresh matching prompt follow its reply |
| Shells.Shell.HandleChar | kernel/src/shell.rs:45-73 | the edit buffer changes as a line editor's should; the cursor row shows exactly the prompt and the line if and only if prompt and line have fitted in one row ever since the prompt |
| Shells.Shell.OnKey | kernel/src/shell.rs:24-33 | hide, edit, show leaves grid, text cursor and line in step under the same condition |
| Shells.Shell.OnKeys | kernel/src/shell.rs:21-38 | so does any sequence of keys, whose longest line since the last Enter decides whether the row shows it; the loop ends early if and only if some key is an Enter behind a halt command |

## Left out

- Coordinates are unbounded: the saturation and overflow of `usize` and `i32` at extreme positions is not modelled.
- Pixels.PutPixel: `PixelFormat::Unknown` is not modelled, and nothing is said of the bytes of a pixel beyond the fourth; two buffers are compared by colour, not by the alpha byte.
- The window manager requires `stride == width` and full-size buffers, which kernel/src/wm.rs:198 and kernel/src/wm.rs:353 rely on.
- Memory ordering: the acquire and release accesses of the rings are sequentially consistent steps.
- The desktop's gradient and pattern: the cached background is any buffer of the right size.
- UTF-8 decoding of window titles is a parameter that never yields more characters than bytes.
- Desktop.RunActions: `init_console` draws without making a composite due, so the runs ask for one to be pending when it is called, as it is at boot; `draw_memmap` is not among the actions.
- Desktop.InitConsole: does not promise that the frame buffer stays in step, for the same reason.
- Consoles.Console.DrawCursor: what is displayed afterwards is stated for consoles with at least one cell and one pixel column of buffer right of the content, which windows have; for others only the painted column is stated.
- Shells.Shell.OnKey: the shell works on its console and buffer directly; the lookup of its window by id and the flags raised on the way are modelled in `Desktop.ConsoleDraw` and `Desktop.ConsoleCursor`.
- ContextSwitch.ResumesAsSuspended: a running task is assumed not to write other tasks' stacks and to have room for a frame when it yields; stack overflow is not modelled.
- TaskRuns.EveryAwakeTaskResumes: no task is spawned in between.
- Tasks.Yield: the same room for a frame is required of the task that yields.
- ContextSwitch.StartsFresh: the ABI's stack alignment at a task's entry is not claimed.
- Frames.AllFrames: region ends are at most 2^52 and region starts do not overflow when rounded up.
- `current_window_id`, `is_focused`, `window`, `needs_composite`, `init_chrome` (never called): one-line accessors and dead code.
- Interrupt masking, locks, the halting loop (a returned flag here), the focus test before reading keys, scancode decoding.
- GDT, IDT, PIC, serial, paging, PS/2 initialisation, heap allocator, memory-map panel, `counter.rs` and the two `format_u64` copies, which repeat `write_u64_decimal`.
