# Typewriter text reveal of the Delora site, in Dafny

This project models `TypingAnimationService`, the typewriter effect of the
Delora marketing site, and proves what the effect relies on.

- **The HTML-aware text splitter** (module `HtmlText`, file `html_text.dfy`).
  `getVisibleCharacters` collects the characters of an HTML string that lie
  outside `<...>` tags. `buildTextUpToIndex` returns the prefix of the HTML
  that shows its first `k` visible characters and keeps every tag reached
  before the cut. Both are modelled as the source's `for` loops, with the
  source's `inTag` flag and early `break`. Each loop is proved against
  specification functions:
  - `InTagAfter` is the flag after a prefix.
  - `Visible` is the visible text.
  - `CutFrom` and `BuildUpTo` give the point where the scan stops.

  Lemmas then prove the properties of those functions: no brackets, a
  subsequence in order, exactly the first `min(k, n)` visible characters,
  the whole input once `k >= n`, and monotone in `k`.
- **The service's per-block state** (module `TypingAnimation`, class
  `TypingAnimationService`, file `typing_animation.dfy`).
  - Fields: the typed element, the present text blocks, their saved HTML,
    and `animationPlayed`, an `array<bool>` with one flag per block.
  - `Initialize` and `Destroy` reassign the fields.
  - `OnIntersection` is the intersection-observer callback. It sets a
    block's flag before starting that block and skips blocks already
    flagged.
  - A ghost log `started` records every start since the last initialize.
    The class invariant says each logged block is flagged and appears only
    once, so a block's typing starts at most once.
- **The typewriters**: `StartTyping` (main logo), `TypeHeaderLogoText` and
  `StartHeaderLogoTyping` (header logo), and `TypeTextBlock` (text blocks).
  Each is the source's step loop. It returns the list of texts it would
  display, in order, instead of writing to the DOM on a timer.

Elements are values with an `id`. The source's identity test `===` becomes
equality of ids. One element's HTML (`innerHTML`) is read once, when the
service starts. Observer entries are given to the callback as a sequence.

## Model

| member | source | states |
|---|---|---|
| `HtmlText.GetVisibleCharacters` | frontend/src/app/services/typing-animation.service.ts:150-160 | the loop returns exactly `Visible(html)`, contains no `<` or `>`, and is no longer than the input |
| `HtmlText.VisibleStep` | frontend/src/app/services/typing-animation.service.ts:153-158 | reading one character updates the flag (`<` sets, `>` clears, others keep) and appends the character to the visible text exactly when it is a visible position |
| `HtmlText.VisiblePrefixMono` | frontend/src/app/services/typing-animation.service.ts:150-160 | reading further only extends the visible text: the visible text of a shorter prefix is a prefix of that of a longer one |
| `HtmlText.VisibleHasNoBrackets` | frontend/src/app/services/typing-animation.service.ts:155-157 | no visible character is `<` or `>` |
| `HtmlText.VisibleLength` | frontend/src/app/services/typing-animation.service.ts:150-160 | the visible text is at most as long as the input |
| `HtmlText.InTagIff` | frontend/src/app/services/typing-animation.service.ts:152-157 | after reading a prefix, the flag is set exactly when some `<` in the prefix is followed by no `>` |
| `HtmlText.TagIsDropped` | frontend/src/app/services/typing-animation.service.ts:155-157 | a `<`, everything after it, and the next `>` add nothing to the visible text |
| `HtmlText.VisibleIsSubsequence` | frontend/src/app/services/typing-animation.service.ts:150-160 | the visible text is the input's characters at the visible positions: the positions strictly increase, each holds the character shown, and no visible position is missed |
| `HtmlText.CutFrom` | frontend/src/app/services/typing-animation.service.ts:166-175 | the scan stops at the end of the input or at a visible position once `k` characters have been shown, never before the position where the search starts |
| `HtmlText.BuildUpTo` | frontend/src/app/services/typing-animation.service.ts:162-177 | the result is a prefix of the input and ends at the end of the input or just before a visible character |
| `HtmlText.BuildTextUpToIndex` | frontend/src/app/services/typing-animation.service.ts:162-177 | the loop with its early `break` returns `BuildUpTo(html, k)`: a prefix of `html` that shows the first `min(k, n)` visible characters, and `html` itself when `k >= n` |
| `HtmlText.BuildUpToShowsPrefix` | frontend/src/app/services/typing-animation.service.ts:150-177 | the visible text of `BuildUpTo(html, k)` is exactly the first `min(k, n)` characters of `Visible(html)` |
| `HtmlText.BuildUpToAll` | frontend/src/app/services/typing-animation.service.ts:166-176 | when `k` is at least the visible count, the loop never breaks and the result is the input unchanged |
| `HtmlText.BuildUpToMonotone` | frontend/src/app/services/typing-animation.service.ts:162-177 | for `k1 <= k2`, `BuildUpTo(html, k1)` is a prefix of `BuildUpTo(html, k2)` |
| `HtmlText.BuildUpToUnique` | frontend/src/app/services/typing-animation.service.ts:162-177 | any prefix that shows the first `min(k, n)` visible characters and ends at the end or before a visible character equals `BuildUpTo(html, k)`, so the stated properties determine the result |
| `TypingAnimation.Present` | frontend/src/app/services/typing-animation.service.ts:25 | an element is kept exactly when the refs hold it, and there are never more blocks than refs |
| `TypingAnimation.PresentAppend` | frontend/src/app/services/typing-animation.service.ts:25 | filtering a concatenation is the concatenation of the filtered parts, so the kept elements keep the refs' order |
| `TypingAnimation.PresentSingle` | frontend/src/app/services/typing-animation.service.ts:25 | one ref gives its element when present and nothing when absent, so there is exactly one block, and one flag, per present ref |
| `TypingAnimation.FindBlock` | frontend/src/app/services/typing-animation.service.ts:197-199 | `-1` exactly when no block has the id; otherwise the first index whose block has the id |
| `TypingAnimation.TypingAnimationService.constructor` | frontend/src/app/services/typing-animation.service.ts:6-21 | no typed element, no blocks, no texts, no flags |
| `TypingAnimation.TypingAnimationService.Initialize` | frontend/src/app/services/typing-animation.service.ts:23-37 | keeps the present blocks, saves each block's HTML, and creates a fresh flag array with one `false` per present block and an empty start log |
| `TypingAnimation.TypingAnimationService.SaveOriginalTexts` | frontend/src/app/services/typing-animation.service.ts:101-107 | one saved text per block, each equal to that block's HTML |
| `TypingAnimation.TypingAnimationService.Destroy` | frontend/src/app/services/typing-animation.service.ts:39-46 | the typed element, the blocks, the texts and the flags are all emptied |
| `TypingAnimation.TypingAnimationService.GetTextBlockIndex` | frontend/src/app/services/typing-animation.service.ts:197-199 | `-1` exactly when no block has that id, otherwise an index whose block has it |
| `TypingAnimation.TypingAnimationService.StartSingleTextBlockTyping` | frontend/src/app/services/typing-animation.service.ts:201-206 | typing is scheduled, with the saved HTML, exactly when the index names a block whose saved text is non-empty |
| `TypingAnimation.TypingAnimationService.OnEntry` | frontend/src/app/services/typing-animation.service.ts:183-190 | one entry: the flag of the block it reports in view becomes set; that block starts only if its flag was clear and its text is non-empty |
| `TypingAnimation.CallbackStep` | frontend/src/app/services/typing-animation.service.ts:182-191 | handling one more entry keeps the callback's invariant: every flag is its initial value or whether some entry so far reported its block, and the started blocks are exactly the reported, initially clear blocks with non-empty text, each listed once |
| `TypingAnimation.TypingAnimationService.OnIntersection` | frontend/src/app/services/typing-animation.service.ts:181-192 | after the callback: a flag is set iff it was set before or some entry reported its block in view; a block is started iff its flag was clear before, it was reported, and its text is non-empty; no block starts twice; the start log grows by exactly these starts and keeps the invariant that it has no duplicates |
| `TypingAnimation.TypingAnimationService.StartTyping` | frontend/src/app/services/typing-animation.service.ts:54-75 | with a typed element, the frames are `FullText[..0]`, `FullText[..1]`, …, `FullText` in order, then typing stops; without one, nothing is shown |
| `TypingAnimation.TypeHeaderLogoText` | frontend/src/app/services/typing-animation.service.ts:117-128 | the frames are `text[..1]`, …, `text[..|text|]` in order, then typing stops |
| `TypingAnimation.StartHeaderLogoTyping` | frontend/src/app/services/typing-animation.service.ts:109-115 | no header logo means no frames; an empty logo text falls back to `Delora.`; the last frame is the whole text |
| `TypingAnimation.CursorInvisible` | frontend/src/app/services/typing-animation.service.ts:136 | appending the cursor span `<span class="cursor temp-cursor"></span>` to any text adds no visible characters |
| `TypingAnimation.FramesShow` | frontend/src/app/services/typing-animation.service.ts:133-139 | each frame `i` of a text block, `BuildUpTo(html, i)` plus the cursor, shows exactly the first `i` visible characters of the HTML |
| `TypingAnimation.TypeTextBlockAsWritten` | frontend/src/app/services/typing-animation.service.ts:130-148 | the loop as written: frame `i` is `BuildUpTo(html, i)` plus the cursor and shows the first `i` visible characters, for `i < n`; the text left after the cursor is removed is `BuildUpTo(html, n - 1)`, or empty when `n = 0` |
| `TypingAnimation.AsWrittenLosesLastCharacter` | frontend/src/app/services/typing-animation.service.ts:130-148 | with `n > 0` visible characters, the text left by the loop as written shows only the first `n - 1` of them and differs from the saved HTML |
| `TypingAnimation.AsWrittenExample` | frontend/src/app/services/typing-animation.service.ts:130-148 | for the HTML `Hi`, the visible text is `Hi` but the last frame shows `H` |
| `TypingAnimation.TypeTextBlock` | frontend/src/app/services/typing-animation.service.ts:130-148 | corrected bound: frame `i` is `BuildUpTo(html, i)` plus the cursor and shows the first `i` visible characters, for `i = 0 … n`; the text left after the cursor is removed is the whole saved HTML |

## Left out

- Timers and delays are not modelled: `setTimeout`, the rxjs `timer`, the `Math.random()` per-character delays, the fixed 900 ms pre-blink, the 500 ms header delay and the 200 ms block delay. They are event-loop and floating-point scheduling. Each typewriter is a plain loop that returns its frames in order.
- Nothing is modelled of what happens when typing and `destroy` overlap, or when several blocks type at once. Both depend on timer interleaving.
- DOM effects are not modelled: `document.querySelector`, `Renderer2` class and style changes, `stopCursorBlink`, `positionCursorAfterText`, `revealLogoParts`, the writes to `textContent` and `innerHTML`, clearing each block in `saveOriginalTexts`, and cutting the temp cursor out of the DOM. Removing the cursor is modelled only as "the text left is the last frame without its cursor".
- Creating the `IntersectionObserver` is not modelled, nor its options or its `observe` and `disconnect` calls, nor `typingSub.unsubscribe`. Only the callback's flag logic is modelled, as `OnIntersection`.
- `renderer` is not a field of the model and has no null checks. It only guards DOM writes.
- HtmlText.BuildTextUpToIndex: takes `targetIndex` as a natural number. JavaScript also accepts negative or fractional numbers there, but the only caller passes 0, 1, 2, ….
- Strings are sequences of Dafny characters. The source slices JavaScript strings, which are UTF-16 code units. The two differ only for characters outside the Basic Multilingual Plane.
- frontend/src/app/intro/intro.component.ts is not part of this model. Its counter, carousel and hover effects are floating-point animation and DOM code.
- frontend/src/app/app.routes.ts is not part of this model. It is static routing configuration.

## Findings

| source | as written | input that shows it | evidently intended | confidence | as-written member | corrected member |
|---|---|---|---|---|---|---|
| frontend/src/app/services/typing-animation.service.ts:134 | `typeTextBlock` shows frames only while `currentIndex < visibleChars.length`, and each frame shows `currentIndex` characters. The last frame therefore shows `n - 1` visible characters. Once the temp cursor is removed, the block keeps that text for good. | a block whose saved HTML is `Hi` ends showing `H`; a block with no visible characters, such as `<br>`, stays empty | the block ends showing its whole saved HTML: the loop also shows `buildTextUpToIndex(html, n)`, which is `html` | medium, not executed (a trailing whitespace character in a block's HTML would hide the effect) | `TypingAnimation.TypeTextBlockAsWritten`, `TypingAnimation.AsWrittenLosesLastCharacter`, `TypingAnimation.AsWrittenExample` | `TypingAnimation.TypeTextBlock` |

For this block typewriter the model follows the code, not the evident
intent of the typewriter, which is that the block ends showing its saved
HTML. That intent holds only for the corrected `TypeTextBlock`.
