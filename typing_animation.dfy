/**
  The typing-animation service of the site: the once-only bookkeeping of the
  text blocks, the observer callback that starts a block's typing, and the
  three typewriters (main logo, header logo, text blocks), each modelled as
  the loop that produces the successive texts it displays.  Timers, random
  delays and DOM writes are not modelled: a typewriter returns the list of
  frames it would display, in order.
*/
module TypingAnimation {
  import opened HtmlText

  datatype Option<T> = None | Some(value: T)

  /** A DOM element: its identity and the HTML it holds when the service starts. */
  datatype Element = Element(id: nat, innerHtml: string)

  /** One intersection-observer entry: which element, and whether it is in view. */
  datatype Entry = Entry(target: nat, isIntersecting: bool)

  /** The text the main logo types. */
  const FullText: string := "Delora."

  /** The header logo text used when the element holds no text. */
  const DefaultHeaderText: string := "Delora."

  /** The blinking cursor appended to every frame of a text block: an opening and a closing tag. */
  const CursorOpenTag: string := "<span class=\"cursor temp-cursor\">"
  const CursorCloseTag: string := "</span>"
  const TempCursor: string := CursorOpenTag + CursorCloseTag

  /** The elements that are present, in order (the `filter(Boolean)` of the refs). */
  function Present(refs: seq<Option<Element>>): (r: seq<Element>)
    ensures |r| <= |refs|
    ensures forall e :: e in r <==> Some(e) in refs
  {
    if refs == [] then []
    else (if refs[0].Some? then [refs[0].value] else []) + Present(refs[1..])
  }

  /** Filtering a concatenation filters each part: the kept elements keep the refs' order. */
  lemma {:induction false} PresentAppend(a: seq<Option<Element>>, b: seq<Option<Element>>)
    ensures Present(a + b) == Present(a) + Present(b)
  {
    if a == [] {
      assert a + b == b;
    } else {
      assert (a + b)[0] == a[0];
      assert (a + b)[1..] == a[1..] + b;
      PresentAppend(a[1..], b);
    }
  }

  /** One ref gives its element when present and nothing otherwise, so there is one block per present ref. */
  lemma PresentSingle(x: Option<Element>)
    ensures Present([x]) == if x.Some? then [x.value] else []
  {
    assert [x][1..] == [];
  }

  /** findIndex by identity: the first block with id `target`, or -1. */
  function FindBlock(blocks: seq<Element>, target: nat): (r: int)
    ensures -1 <= r < |blocks|
    ensures r == -1 <==> forall j :: 0 <= j < |blocks| ==> blocks[j].id != target
    ensures r >= 0 ==> blocks[r].id == target && forall j :: 0 <= j < r ==> blocks[j].id != target
  {
    if blocks == [] then -1
    else if blocks[0].id == target then 0
    else
      var r := FindBlock(blocks[1..], target);
      if r == -1 then -1 else r + 1
  }

  /** Entry `e` reports block `i` in view. */
  predicate Hits(blocks: seq<Element>, e: Entry, i: int) {
    e.isIntersecting && FindBlock(blocks, e.target) == i
  }

  /** Some entry among `es` reports block `i` in view. */
  ghost predicate Requested(blocks: seq<Element>, es: seq<Entry>, i: int) {
    exists j :: 0 <= j < |es| && Hits(blocks, es[j], i)
  }

  lemma RequestedStep(blocks: seq<Element>, es: seq<Entry>, k: nat, i: int)
    requires k < |es|
    ensures Requested(blocks, es[..k + 1], i) <==>
            Requested(blocks, es[..k], i) || Hits(blocks, es[k], i)
  {
  }

  predicate NoDuplicates(s: seq<nat>) {
    forall a, b :: 0 <= a < b < |s| ==> s[a] != s[b]
  }

  lemma NoDuplicatesAppend(s: seq<nat>, x: nat)
    requires NoDuplicates(s) && x !in s
    ensures NoDuplicates(s + [x])
  {
  }

  /** After the entries `es`, each flag is its initial value or whether some entry reported its block. */
  ghost predicate FlagsAfter(blocks: seq<Element>, es: seq<Entry>, initial: seq<bool>, flags: seq<bool>) {
    |flags| == |initial| &&
    forall i :: 0 <= i < |flags| ==> flags[i] == (initial[i] || Requested(blocks, es, i))
  }

  /**
    After the entries `es`, `starts` lists, once each, the reported blocks
    whose flag was initially clear and whose saved text is non-empty.
  */
  ghost predicate StartsAfter(blocks: seq<Element>, texts: seq<string>, es: seq<Entry>, initial: seq<bool>, starts: seq<nat>) {
    |texts| == |initial| && NoDuplicates(starts) &&
    forall i :: i in starts <==> 0 <= i < |initial| && !initial[i] && Requested(blocks, es, i) && texts[i] != ""
  }

  /** Handling one more entry as the callback's body does keeps FlagsAfter and StartsAfter. */
  lemma CallbackStep(blocks: seq<Element>, texts: seq<string>, es: seq<Entry>, k: nat,
                     initial: seq<bool>, before: seq<bool>, after: seq<bool>, starts: seq<nat>, s: seq<nat>)
    requires k < |es|
    requires FlagsAfter(blocks, es[..k], initial, before)
    requires StartsAfter(blocks, texts, es[..k], initial, starts)
    requires |after| == |before|
    requires forall i :: 0 <= i < |after| ==> after[i] == (before[i] || Hits(blocks, es[k], i))
    requires forall i :: i in s <==> 0 <= i < |before| && !before[i] && Hits(blocks, es[k], i) && texts[i] != ""
    requires |s| <= 1
    ensures FlagsAfter(blocks, es[..k + 1], initial, after)
    ensures StartsAfter(blocks, texts, es[..k + 1], initial, starts + s)
  {
    forall i | 0 <= i < |after| {
      RequestedStep(blocks, es, k, i);
    }
    if s != [] {
      assert s[0] in s;
      assert s == [s[0]];
      NoDuplicatesAppend(starts, s[0]);
    }
  }

  class TypingAnimationService {
    var typedEl: Option<nat>
    var textBlocks: seq<Element>
    var originalTexts: seq<string>
    var animationPlayed: array<bool>
    /** The blocks whose typing has been started since the last initialize, in order. */
    ghost var started: seq<nat>

    /**
      One flag and one saved text per block, and every started block is
      flagged and was started once.
    */
    ghost predicate Valid()
      reads this, animationPlayed
    {
      && animationPlayed.Length == |textBlocks|
      && |originalTexts| == |textBlocks|
      && (forall j :: 0 <= j < |started| ==> started[j] < animationPlayed.Length && animationPlayed[started[j]])
      && NoDuplicates(started)
    }

    constructor ()
      ensures Valid() && fresh(animationPlayed)
      ensures typedEl == None && textBlocks == [] && originalTexts == [] && started == []
    {
      typedEl := None;
      textBlocks := [];
      originalTexts := [];
      animationPlayed := new bool[0];
      started := [];
    }

    /**
      initialize: keeps the present blocks, saves their texts, and gives
      every block a cleared flag.
    */
    method Initialize(typed: Option<nat>, textBlockRefs: seq<Option<Element>>)
      modifies this
      ensures Valid() && fresh(animationPlayed)
      ensures typedEl == typed
      ensures textBlocks == Present(textBlockRefs)
      ensures forall i :: 0 <= i < |textBlocks| ==> originalTexts[i] == textBlocks[i].innerHtml
      ensures animationPlayed.Length == |textBlocks|
      ensures forall i :: 0 <= i < animationPlayed.Length ==> !animationPlayed[i]
      ensures started == []
    {
      typedEl := typed;
      textBlocks := Present(textBlockRefs);
      animationPlayed := new bool[|textBlocks|](_ => false);
      started := [];
      SaveOriginalTexts();
    }

    /** saveOriginalTexts: one saved text per block, taken from the block. */
    method SaveOriginalTexts()
      modifies this`originalTexts
      ensures |originalTexts| == |textBlocks|
      ensures forall i :: 0 <= i < |textBlocks| ==> originalTexts[i] == textBlocks[i].innerHtml
    {
      originalTexts := [];
      for index := 0 to |textBlocks|
        invariant |originalTexts| == index
        invariant forall i :: 0 <= i < index ==> originalTexts[i] == textBlocks[i].innerHtml
      {
        originalTexts := originalTexts + [textBlocks[index].innerHtml];
      }
    }

    /** destroy: forgets the typed element, the blocks, the texts and the flags. */
    method Destroy()
      modifies this
      ensures Valid() && fresh(animationPlayed)
      ensures typedEl == None && textBlocks == [] && originalTexts == []
      ensures animationPlayed.Length == 0 && started == []
    {
      typedEl := None;
      textBlocks := [];
      originalTexts := [];
      animationPlayed := new bool[0];
      started := [];
    }

    /** getTextBlockIndex: the index of the block with id `target`, or -1. */
    method GetTextBlockIndex(target: nat) returns (r: int)
      ensures r == FindBlock(textBlocks, target)
      ensures r == -1 <==> forall j :: 0 <= j < |textBlocks| ==> textBlocks[j].id != target
      ensures r != -1 ==> 0 <= r < |textBlocks| && textBlocks[r].id == target
    {
      r := FindBlock(textBlocks, target);
    }

    /**
      startSingleTextBlockTyping: the saved HTML whose typing is scheduled,
      or None when there is no such block or its saved text is empty.
    */
    method StartSingleTextBlockTyping(blockIndex: int) returns (html: Option<string>)
      requires |originalTexts| == |textBlocks|
      ensures html.Some? <==> 0 <= blockIndex < |textBlocks| && originalTexts[blockIndex] != ""
      ensures html.Some? ==> html.value == originalTexts[blockIndex]
    {
      if !(0 <= blockIndex < |textBlocks|) || originalTexts[blockIndex] == "" {
        html := None;
      } else {
        html := Some(originalTexts[blockIndex]);
      }
    }

    /**
      The intersection-observer callback.  For each entry in view that names
      a known block whose flag is clear, the flag is set and the block's
      typing is started; `starts` lists those blocks in order.  A block whose
      flag was already set is never started again.
    */
    method OnIntersection(entries: seq<Entry>) returns (starts: seq<nat>)
      requires Valid()
      modifies animationPlayed, this`started
      ensures Valid()
      ensures forall i :: 0 <= i < animationPlayed.Length ==>
                animationPlayed[i] == (old(animationPlayed[i]) || Requested(textBlocks, entries, i))
      ensures forall i :: i in starts <==>
                0 <= i < animationPlayed.Length && !old(animationPlayed[i]) &&
                Requested(textBlocks, entries, i) && originalTexts[i] != ""
      ensures NoDuplicates(starts)
      ensures started == old(started) + starts
    {
      ghost var initial := animationPlayed[..];
      starts := [];
      for k := 0 to |entries|
        invariant Valid()
        invariant FlagsAfter(textBlocks, entries[..k], initial, animationPlayed[..])
        invariant StartsAfter(textBlocks, originalTexts, entries[..k], initial, starts)
        invariant started == old(started) + starts
      {
        ghost var before := animationPlayed[..];
        var s := OnEntry(entries[k]);
        CallbackStep(textBlocks, originalTexts, entries, k, initial, before, animationPlayed[..], starts, s);
        starts := starts + s;
      }
      assert entries[..|entries|] == entries;
    }

    /** The callback's body for one entry; `s` is the block it starts, if any. */
    method OnEntry(entry: Entry) returns (s: seq<nat>)
      requires Valid()
      modifies animationPlayed, this`started
      ensures Valid()
      ensures forall i :: 0 <= i < animationPlayed.Length ==>
                animationPlayed[i] == (old(animationPlayed[i]) || Hits(textBlocks, entry, i))
      ensures forall i :: i in s <==>
                0 <= i < animationPlayed.Length && !old(animationPlayed[i]) &&
                Hits(textBlocks, entry, i) && originalTexts[i] != ""
      ensures |s| <= 1
      ensures started == old(started) + s
    {
      s := [];
      if entry.isIntersecting {
        var blockIndex := GetTextBlockIndex(entry.target);
        if blockIndex != -1 && !animationPlayed[blockIndex] {
          animationPlayed[blockIndex] := true;
          var html := StartSingleTextBlockTyping(blockIndex);
          if html.Some? {
            s := [blockIndex];
            started := started + s;
          }
        }
      }
    }

    /**
      startTyping: the main logo shows FullText[..0], FullText[..1], ... up
      to the whole text, one frame per step, and then stops; nothing is
      typed when there is no typed element.
    */
    method StartTyping() returns (frames: seq<string>)
      ensures typedEl == None ==> frames == []
      ensures typedEl != None ==> |frames| == |FullText| + 1
      ensures typedEl != None ==> forall i :: 0 <= i < |frames| ==> frames[i] == FullText[..i]
    {
      frames := [];
      if typedEl == None {
        return;
      }
      var idx := 0;
      while idx <= |FullText|
        invariant 0 <= idx <= |FullText| + 1
        invariant |frames| == idx
        invariant forall i :: 0 <= i < idx ==> frames[i] == FullText[..i]
      {
        frames := frames + [FullText[..idx]];
        idx := idx + 1;
      }
    }
  }

  /** typeHeaderLogoText: shows text[..1], text[..2], ... up to the whole text, then stops. */
  method TypeHeaderLogoText(text: string) returns (frames: seq<string>)
    ensures |frames| == |text|
    ensures forall i :: 0 <= i < |frames| ==> frames[i] == text[..i + 1]
  {
    frames := [];
    var currentLength := 0;
    while currentLength < |text|
      invariant 0 <= currentLength <= |text|
      invariant |frames| == currentLength
      invariant forall i :: 0 <= i < currentLength ==> frames[i] == text[..i + 1]
    {
      frames := frames + [text[..currentLength + 1]];
      currentLength := currentLength + 1;
    }
  }

  /**
    startHeaderLogoTyping: nothing happens without a header logo; an empty
    logo text falls back to DefaultHeaderText.
  */
  method StartHeaderLogoTyping(headerLogo: Option<string>) returns (frames: seq<string>)
    ensures headerLogo == None ==> frames == []
    ensures headerLogo.Some? ==>
              var text := if headerLogo.value == "" then DefaultHeaderText else headerLogo.value;
              |frames| == |text| && frames[|frames| - 1] == text &&
              forall i :: 0 <= i < |frames| ==> frames[i] == text[..i + 1]
  {
    if headerLogo == None {
      frames := [];
    } else {
      var originalText := if headerLogo.value == "" then DefaultHeaderText else headerLogo.value;
      frames := TypeHeaderLogoText(originalText);
      assert originalText[..|originalText|] == originalText;
    }
  }

  /** The text a block displays at step `i`: its first `i` visible characters and the cursor. */
  function Frame(html: string, i: nat): string {
    BuildUpTo(html, i) + TempCursor
  }

  /** Appending one whole tag, a '<' to the first '>' after it, adds no visible characters. */
  lemma TagAppendInvisible(x: string, t: string)
    requires 2 <= |t| && t[0] == '<' && t[|t| - 1] == '>'
    requires forall m :: 0 < m < |t| - 1 ==> t[m] != '>'
    ensures Visible(x + t) == Visible(x)
  {
    var s := x + t;
    var a, b := |x|, |x| + |t| - 1;
    forall m | a < m < b ensures s[m] != '>' {
      assert s[m] == t[m - a];
    }
    TagIsDropped(s, a, b);
    assert s[..a] == x && s[..b + 1] == s;
  }

  /** Appending the cursor span adds no visible characters, whatever precedes it. */
  lemma CursorInvisible(x: string)
    ensures Visible(x + TempCursor) == Visible(x)
  {
    var o, c := CursorOpenTag, CursorCloseTag;
    assert |o| == 33 && o[32] == '>';
    forall m | 0 < m < 32 ensures o[m] != '>' { }
    forall m | 0 < m < 6 ensures c[m] != '>' { }
    TagAppendInvisible(x, o);
    TagAppendInvisible(x + o, c);
    assert x + TempCursor == (x + o) + c;
  }

  /** Each frame `i` of a text block shows exactly the first `i` visible characters of its HTML. */
  lemma FramesShow(html: string, frames: seq<string>)
    requires |frames| <= |Visible(html)| + 1
    requires forall i :: 0 <= i < |frames| ==> frames[i] == Frame(html, i)
    ensures forall i :: 0 <= i < |frames| ==> Visible(frames[i]) == Visible(html)[..i]
  {
    forall i | 0 <= i < |frames| ensures Visible(frames[i]) == Visible(html)[..i] {
      assert frames[i] == BuildUpTo(html, i) + TempCursor;
      CursorInvisible(BuildUpTo(html, i));
      BuildUpToShowsPrefix(html, i);
    }
  }

  /**
    typeTextBlock exactly as written: frames for currentIndex = 0 .. n - 1,
    n being the number of visible characters, and then the cursor is
    removed, which leaves the last frame's text.  That text lacks the last
    visible character (see AsWrittenLosesLastCharacter).
  */
  method TypeTextBlockAsWritten(html: string) returns (frames: seq<string>, shown: string)
    ensures |frames| == |Visible(html)|
    ensures forall i :: 0 <= i < |frames| ==> frames[i] == Frame(html, i)
    ensures forall i :: 0 <= i < |frames| ==> Visible(frames[i]) == Visible(html)[..i]
    ensures shown == if frames == [] then "" else BuildUpTo(html, |frames| - 1)
  {
    var visibleChars := GetVisibleCharacters(html);
    frames := [];
    shown := "";
    var currentIndex := 0;
    while currentIndex < |visibleChars|
      invariant 0 <= currentIndex <= |visibleChars|
      invariant |frames| == currentIndex
      invariant forall i :: 0 <= i < currentIndex ==> frames[i] == Frame(html, i)
      invariant shown == if currentIndex == 0 then "" else BuildUpTo(html, currentIndex - 1)
    {
      var currentText := BuildTextUpToIndex(html, currentIndex);
      frames := frames + [currentText + TempCursor];
      shown := currentText;
      currentIndex := currentIndex + 1;
    }
    FramesShow(html, frames);
  }

  /** The block as typed by the loop as written never shows its last visible character. */
  lemma AsWrittenLosesLastCharacter(html: string)
    requires |Visible(html)| > 0
    ensures Visible(BuildUpTo(html, |Visible(html)| - 1)) == Visible(html)[..|Visible(html)| - 1]
    ensures BuildUpTo(html, |Visible(html)| - 1) != html
  {
    var n := |Visible(html)|;
    BuildUpToShowsPrefix(html, n - 1);
    assert |Visible(html)[..n - 1]| == n - 1;
  }

  /** The plain text "Hi" is left as "H". */
  lemma AsWrittenExample()
    ensures Visible("Hi") == "Hi"
    ensures BuildUpTo("Hi", 1) == "H"
  {
  }

  /**
    typeTextBlock with the evidently intended bound: frames for
    currentIndex = 0 .. n, so the last frame, and the text left once the
    cursor is removed, is the whole saved HTML.
  */
  method TypeTextBlock(html: string) returns (frames: seq<string>, shown: string)
    ensures |frames| == |Visible(html)| + 1
    ensures forall i :: 0 <= i < |frames| ==> frames[i] == Frame(html, i)
    ensures forall i :: 0 <= i < |frames| ==> Visible(frames[i]) == Visible(html)[..i]
    ensures shown == html
  {
    var visibleChars := GetVisibleCharacters(html);
    frames := [];
    shown := "";
    var currentIndex := 0;
    while currentIndex <= |visibleChars|
      invariant 0 <= currentIndex <= |visibleChars| + 1
      invariant |frames| == currentIndex
      invariant forall i :: 0 <= i < currentIndex ==> frames[i] == Frame(html, i)
      invariant currentIndex > 0 ==> shown == BuildUpTo(html, currentIndex - 1)
    {
      var currentText := BuildTextUpToIndex(html, currentIndex);
      frames := frames + [currentText + TempCursor];
      shown := currentText;
      currentIndex := currentIndex + 1;
    }
    BuildUpToAll(html, |visibleChars|);
    FramesShow(html, frames);
  }
}
