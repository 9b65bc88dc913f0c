# particle-jumping in Dafny

This project models `script.js` of particle-jumping. That file runs the page's mouse-trail
particle background and its two modals. The model has four modules.

- `ParticleTrail` (`particle_trail.dfy`) covers the particle trail.
  - Every mouse move pushes one new particle at the pointer.
  - Every animation frame first drops the particles of size at most 0.5. It then
    updates each remaining particle: it moves by its velocity and its size is
    multiplied by 0.96.
  - `Particle` and `Trail` are classes whose methods change their fields, as in the
    source. `Trail` keeps a ghost list `Contents` of the particles' values, tied
    index by index to the objects by `Valid()`.
  - The pure functions `Spawned`, `Moved`, `Survivors`, `AdvanceAll` and
    `FrameStep` specify those methods. The lemmas about particle lifetimes are
    stated over these functions.
- `QuoteIndex` (`quote_index.dfy`) holds the index arithmetic of the gift modal:
  - JavaScript's truncating `%`;
  - the fallback of a NaN or zero gift value to index 0;
  - the "next" step with its ten-click cycle.
- `GiftModal` (`gift_modal.dfy`) holds the table of ten lines and two classes.
  - The quote modal, `QuoteModal`, has `currentLine`, the `hidden` flag and the
    shown text.
  - The Santa modal, `SantaModal`, has its `hidden` flag and its text.
  - Each click and keydown handler is a method.
- `Optional` (`optional.dfy`) is the usual `Option` datatype.

Within a frame the filter (script.js:51) runs before the update and draw of
each survivor (script.js:53-56). The lifetime lemmas follow from that order:

- A lone particle's last drawn state has a size of at most 0.5; only the next
  frame drops it (`LastDrawnAtMostThreshold`, with the concrete case
  `DrawnBelowThreshold`).
- Without mouse input, frames treat each particle independently of the rest of
  the trail (`FramesAppend`, `FramesAround`). The results about one particle
  therefore hold for a particle anywhere in a trail of others:
  - every spawned particle, of size at least 2, is still in the trail after
    34 frames (`SpawnedPresent`);
  - every spawned particle, of size below 7, is gone after 66 frames, and the
    rest of the trail is then as it would be without it (`SpawnedGone`).

`Alive` is the filter's predicate. `MovedTimes`, `Frames` and `NextTimes` are
k-fold compositions of one update, one frame and one "next" click. Their own
contracts state what every repetition keeps, and the lemmas relate them to
closed forms. `Pow`, `PowAdd`, `Distrib`, `Rotate`, `ScaleLe`, `MulAtLeast`,
`ModOf`, `ModSucc`, `ModReturn` and `CycleStep` are arithmetic helpers for those proofs and
model nothing of the source themselves.

Sizes are exact reals. The four `Math.random()` results a particle consumes are
passed in as `Draws`. A draw is valid when it is in [0,1).

## Model

| member | source | states |
|---|---|---|
| ParticleTrail.Spawned | script.js:24-31 | a new particle sits at the pointer; valid random draws give a size in [2,7), both speeds in [-1.5,1.5) and a hue in [0,360) |
| ParticleTrail.Moved | script.js:33-37 | an update moves the particle by exactly its velocity, keeps speeds and hue, and strictly shrinks a positive size while keeping it positive |
| ParticleTrail.MovedTimes | script.js:33-37 | any number of updates keeps speeds and hue, and keeps a positive size positive and no larger |
| ParticleTrail.MovedTimesClosedForm | script.js:33-37 | k updates put a particle k velocities away, with its size scaled by 0.96^k |
| ParticleTrail.Alive | script.js:51 | the filter's predicate: the size is above 0.5 |
| ParticleTrail.Survivors | script.js:51 | the filter never lengthens the list |
| ParticleTrail.SurvivorsAppend | script.js:51 | filtering distributes over concatenation, so the kept particles stay in their original order |
| ParticleTrail.SurvivorsSingle | script.js:51 | one particle is kept exactly when its size is above 0.5 |
| ParticleTrail.SurvivorsPrefix | script.js:51 | filtering one more element appends it exactly when it is alive |
| ParticleTrail.SurvivorsMembers | script.js:51 | a particle is in the filtered list if and only if it was in the list and its size is above 0.5 |
| ParticleTrail.SurvivorsAll | script.js:51 | the filter returns the whole list if and only if every particle is alive |
| ParticleTrail.SurvivorsShorter | script.js:51 | a filter that removes anything returns a strictly shorter list |
| ParticleTrail.AdvanceAll | script.js:53-56 | the forEach update keeps the number of particles |
| ParticleTrail.FrameStep | script.js:51-56 | a frame never adds particles |
| ParticleTrail.Frames | script.js:47-60 | any number of frames without mouse input never adds particles |
| ParticleTrail.FrameStepAppend | script.js:51-56 | a frame treats every particle independently: it distributes over concatenation |
| ParticleTrail.FramesAppend | script.js:51-56 | any number of frames distributes over concatenation: part of the trail evolves independently of the rest |
| ParticleTrail.FramesAround | script.js:51-56 | a particle anywhere in the trail evolves over k frames exactly as it would alone |
| ParticleTrail.FrameStepSingle | script.js:51-56 | a lone particle survives a frame exactly when its size is above 0.5 at the start, and leaves it updated once |
| ParticleTrail.FrameStepSizes | script.js:51-56 | after a frame every size is above 0.5 * 0.96 |
| ParticleTrail.FrameStepCount | script.js:51-56 | a frame keeps the count exactly when every particle is alive, and lowers it otherwise |
| ParticleTrail.DrawnBelowThreshold | script.js:51-56 | because of the filter-then-update order, size 0.51 leaves its first frame as 0.4896 and is gone after the second |
| ParticleTrail.LastDrawnAtMostThreshold | script.js:51-56 | a lone particle present after k frames and gone after k + 1 was last drawn at a size of at most 0.5 |
| ParticleTrail.PowDecay | script.js:36 | the powers of 0.96 are positive and decrease |
| ParticleTrail.AliveThroughAt | script.js:51-56 | a particle alive through k frames had a size above 0.5 after j updates, for every j < k |
| ParticleTrail.AliveAtEach | script.js:51-56 | a size above 0.5 before each of k frames makes the particle alive through them |
| ParticleTrail.AliveThroughAll | script.js:51-56 | alive through k frames if and only if the size was above 0.5 at the start of each of them |
| ParticleTrail.MovedAfter | script.js:33-37 | one update of the k-update closed form is the (k+1)-update closed form |
| ParticleTrail.Lifetime | script.js:51-56 | a lone particle after k frames is its k-update closed form if it was alive at the start of each frame, and gone otherwise |
| ParticleTrail.LastFrameDecides | script.js:36 | since sizes only shrink, survival through k frames depends only on the size at the start of the last one |
| ParticleTrail.PowBound | script.js:36 | 0.96^k * (24 + k) <= 24 |
| ParticleTrail.DecaysToThreshold | script.js:36 | a size z has decayed to at most 0.5 after any m updates with m + 1 > 48 * z |
| ParticleTrail.EventuallyGone | script.js:51-56 | every particle disappears: one of size z, anywhere in a trail, is gone after any number of frames above 48 * z, leaving the rest of the trail as it would be without it |
| ParticleTrail.DecayPowers | script.js:36 | 0.96^33 > 0.25 and 7 * 0.96^65 <= 0.5 |
| ParticleTrail.GoneAfter | script.js:51-56 | a particle anywhere in a trail whose size after m updates is at most 0.5 is gone after m + 1 frames; the rest of the trail is as without it |
| ParticleTrail.PresentAfter | script.js:51-56 | a particle anywhere in a trail whose size after m updates is above 0.5 is still at its place after m + 1 frames, updated m + 1 times |
| ParticleTrail.GoneBySize | script.js:51-56 | a particle in a trail with a size bounded above by one that decays to at most 0.5 in m updates is gone after m + 1 frames |
| ParticleTrail.PresentBySize | script.js:51-56 | a particle in a trail with a size bounded below by one still above 0.5 after m updates is at its place after m + 1 frames |
| ParticleTrail.SpawnedPresent | script.js:20-27 | a spawned particle anywhere in a trail is still at its place after 34 frames, updated 34 times |
| ParticleTrail.SpawnedGone | script.js:20-27 | a spawned particle anywhere in a trail is gone after 66 frames, and the rest of the trail is as without it |
| ParticleTrail.Particle.constructor | script.js:24-31 | the fields of `new Particle(x, y)` are `Spawned` of the pointer and the draws |
| ParticleTrail.Particle.Update | script.js:33-37 | the new fields are `Moved` of the old ones |
| ParticleTrail.Trail.constructor | script.js:14-15 | the particle list starts empty and the mouse position unset |
| ParticleTrail.Trail.MouseMove | script.js:17-21 | records the pointer and appends exactly one fresh particle, spawned there, leaving the earlier ones in place |
| ParticleTrail.Trail.Frame | script.js:51-56 | the new list's values are `FrameStep` of the old ones, and no new particle objects appear |
| ParticleTrail.Trail.DropSmall | script.js:51 | the new list is `Survivors` of the old one, made of the old objects |
| ParticleTrail.Trail.UpdateEach | script.js:53-56 | every particle of the list is updated once, in place; the list itself is unchanged |
| QuoteIndex.JsRem | script.js:86 | JavaScript's remainder: the dividend's sign, a magnitude below the divisor, and dividend = truncated quotient * divisor + remainder |
| QuoteIndex.JsRemUnique | script.js:86 | those properties determine the remainder and the quotient uniquely |
| QuoteIndex.JsRemVersusEuclid | script.js:86 | JavaScript's and Dafny's remainders agree for non-negative dividends; -1 % 10 is -1 in JavaScript and 9 in Dafny |
| QuoteIndex.GiftIndex | script.js:97 | NaN falls back to 0; any integral number, zero included, gives itself |
| QuoteIndex.LineIndex | script.js:86 | a non-negative argument gives an index of the table; a negative one gives an index in (-10, 0] |
| QuoteIndex.NextLine | script.js:101 | "next" advances by one on a table line, wrapping from 9 to 0; from a negative line it adds one |
| QuoteIndex.NextLineMod | script.js:101 | from line -1 onwards, "next" is (line + 1) mod 10 |
| QuoteIndex.NextTimes | script.js:101 | repeated "next" clicks from a table line stay on the table, and from a line in (-10,10) stay in (-10,10) |
| QuoteIndex.NextTimesCycle | script.js:101 | k "next" clicks from a table line reach (line + k) mod 10 |
| QuoteIndex.NextLineWrap | script.js:101 | "next" from x mod 10 is (x + 1) mod 10 |
| QuoteIndex.NextTimesReturn | script.js:101 | k "next" clicks return to the starting line if and only if k is a multiple of 10 |
| QuoteIndex.NextTimesFromNegative | script.js:97-101 | from a negative line, each "next" click adds one until line 0 |
| QuoteIndex.NextTimesIntoTable | script.js:97-101 | from a negative line, every "next" click after line 0 is reached stays on the table |
| GiftModal.TableSize | script.js:71-82 | the table holds ten lines |
| GiftModal.LineAt | script.js:88 | indexing the table gives a line exactly for indices in [0,10), and undefined otherwise |
| GiftModal.QuoteModal.constructor | script.js:83 | currentLine starts at 0 |
| GiftModal.QuoteModal.ShowQuote | script.js:85-90 | records the JavaScript remainder as currentLine, shows the table entry at it, and makes the modal visible |
| GiftModal.QuoteModal.HideQuote | script.js:91-93 | hides the modal and changes nothing else |
| GiftModal.QuoteModal.ClickGift | script.js:95-99 | shows the line at the fallback index of the gift's value |
| GiftModal.QuoteModal.ClickNext | script.js:101 | moves currentLine to `NextLine` of the old one and shows it |
| GiftModal.QuoteModal.ClickClose | script.js:102 | hides the modal |
| GiftModal.QuoteModal.ClickModal | script.js:103-105 | hides the modal exactly when the click is on the backdrop itself |
| GiftModal.QuoteModal.KeyDown | script.js:106-108 | Escape hides the modal; any other key leaves it as it was |
| GiftModal.SantaModal.constructor | script.js:111-114 | the Santa modal starts with its initial hidden flag and no text written yet |
| GiftModal.SantaModal.ShowSanta | script.js:116-119 | writes the greeting and makes the modal visible |
| GiftModal.SantaModal.HideSanta | script.js:120-122 | hides the modal and keeps its text |
| GiftModal.SantaModal.ClickModal | script.js:125-127 | hides the modal exactly when the click is on the backdrop itself |
| GiftModal.SantaModal.KeyDown | script.js:128-130 | Escape hides the modal; any other key leaves it as it was |
| GiftModal.WindowKeyDown | script.js:106-130 | one keydown runs both window listeners, the quote one (lines 106-108) and then the Santa one (lines 128-130): Escape hides both modals, and nothing else changes |

## Left out

- Drawing is not modelled: `Particle.draw` at script.js:39-44, and the translucent overlay at script.js:48-49. They only paint the canvas. `UpdateEach` also leaves out the `draw` call inside the forEach.
- `requestAnimationFrame` scheduling at script.js:58-60 is not modelled. `Trail.Frame` is one iteration of `animate`, and `Frames` composes iterations.
- Canvas resizing (script.js:7-12) is not modelled; it only sets the canvas dimensions.
- `Math.random()` is not modelled. Its results are parameters (`Draws`).
- The model uses exact real arithmetic. IEEE-754 rounding of sizes, positions and speeds is not modelled.
- Only the state behind the DOM elements is modelled: the text content and the `hidden` flags. The modals' initial visibility comes from the page markup, so it is a constructor parameter.
- The `if (santaText)` / `if (santaModal)` / `?.` null guards are left out; the Santa elements are taken as present. The document lookup (script.js:63-69) is not modelled.
- QuoteIndex.GiftIndex: only integral gift values are modelled. `Number` of a non-integral or infinite `data-gift`, and the resulting `undefined` text, are not modelled.
- ParticleTrail.Trail.Valid: the model requires that the particle list holds distinct objects. The source upholds this, because every push is of a newly constructed particle.
- GiftModal.QuoteModal.ShowQuote: writing undefined for a negative index sets the text to None, the same value as "no text written yet". The page distinguishes the two: the first shows an empty text, the second the markup's own text.
- ParticleTrail.Trail.MouseMove: the mouse position is recorded as a point, not as two separately assigned fields.
- script.js has no snow layer, toasts or inbox, so none is modelled.
