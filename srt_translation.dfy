/** The `/translate-srt/` endpoint: the subtitle file is cut into blocks at blank lines,
    every block that holds a cue number, a timecode and at least one line of text is
    rebuilt with its text translated, and the rebuilt blocks are put back together.
    The translator (a remote chat-completion request that already knows the target
    language) is the function parameter `translate`. */
module SrtTranslation {
  import opened PyStrings
  import opened Filtering

  /** The blocks of a subtitle file: the stripped content split at each "\n\n". The
      blocks, put back together with "\n\n", are the stripped content, and no block
      holds a blank-line separator of its own. */
  function Blocks(srt: string): (blocks: seq<string>)
    ensures Join("\n\n", blocks) == Strip(srt)
    ensures forall k :: 0 <= k < |blocks| ==> !Contains(blocks[k], "\n\n")
  {
    JoinSplit(Strip(srt), "\n\n");
    SplitPiecesAvoidSep(Strip(srt), "\n\n");
    Split(Strip(srt), "\n\n")
  }

  /** The lines of one block: the stripped block split at each "\n". The lines, put
      back together with "\n", are the stripped block, and none holds a newline. */
  function BlockLines(block: string): (lines: seq<string>)
    ensures Join("\n", lines) == Strip(block)
    ensures forall k :: 0 <= k < |lines| ==> '\n' !in lines[k]
  {
    JoinSplit(Strip(block), "\n");
    SplitAvoidsChar(Strip(block), '\n');
    Split(Strip(block), "\n")
  }

  /** A block is translated only when it is not blank and has at least three lines:
      cue number, timecode and text. Since a blank block is a single empty line, that
      is the same as the stripped block holding at least two newlines. */
  predicate IsCue(block: string)
    ensures IsCue(block) <==> CountChar(Strip(block), '\n') >= 2
  {
    SplitCount(Strip(block), '\n');
    Strip(block) != "" && |BlockLines(block)| >= 3
  }

  /** The text of a cue, handed to the translator: every line after the timecode,
      joined by single spaces. It is a single line. */
  function CueText(block: string): (text: string)
    requires IsCue(block)
    ensures '\n' !in text
  {
    var lines := BlockLines(block);
    assert forall k :: 0 <= k < |lines[2..]| ==> lines[2..][k] == lines[k + 2];
    JoinAvoidsChar(" ", lines[2..], '\n');
    Join(" ", lines[2..])
  }

  /** The rebuilt cue: number, timecode and the stripped translation, one per line.
      Read back line by line, it gives the cue's number and timecode unchanged, then
      the lines of the stripped translation. */
  function RebuildCue(block: string, translate: string -> string): (cue: string)
    requires IsCue(block)
    ensures Split(cue, "\n") == BlockLines(block)[..2] + Split(Strip(translate(CueText(block))), "\n")
  {
    var lines := BlockLines(block);
    HeaderLines(lines[0], lines[1], Strip(translate(CueText(block))));
    lines[0] + "\n" + lines[1] + "\n" + Strip(translate(CueText(block)))
  }

  /** The cues of a subtitle file, in file order. */
  function Cues(srt: string): (cues: seq<string>)
    ensures forall k :: 0 <= k < |cues| ==> IsCue(cues[k])
  {
    Filter(IsCue, Blocks(srt))
  }

  /** The texts sent to the translator for the given cues, one request per cue. */
  function Requests(cues: seq<string>): (texts: seq<string>)
    requires forall k :: 0 <= k < |cues| ==> IsCue(cues[k])
    ensures |texts| == |cues|
  {
    seq(|cues|, k requires 0 <= k < |cues| => CueText(cues[k]))
  }

  /** The rebuilt blocks for the given cues, one per cue. */
  function Rebuilt(cues: seq<string>, translate: string -> string): (out: seq<string>)
    requires forall k :: 0 <= k < |cues| ==> IsCue(cues[k])
    ensures |out| == |cues|
  {
    seq(|cues|, k requires 0 <= k < |cues| => RebuildCue(cues[k], translate))
  }

  /** Rebuilding and requesting go cue by cue: one more cue adds one block and one request. */
  lemma AppendCue(cues: seq<string>, block: string, translate: string -> string)
    requires forall k :: 0 <= k < |cues| ==> IsCue(cues[k])
    requires IsCue(block)
    ensures Rebuilt(cues + [block], translate) == Rebuilt(cues, translate) + [RebuildCue(block, translate)]
    ensures Requests(cues + [block]) == Requests(cues) + [CueText(block)]
  {
  }

  /** One iteration of the endpoint's loop: a cue block adds its rebuilt block and its
      request, any other block adds nothing. */
  lemma NextBlock(blocks: seq<string>, i: nat, translate: string -> string)
    requires i < |blocks|
    ensures var before, after := Filter(IsCue, blocks[..i]), Filter(IsCue, blocks[..i + 1]);
      && Rebuilt(after, translate)
         == Rebuilt(before, translate) + (if IsCue(blocks[i]) then [RebuildCue(blocks[i], translate)] else [])
      && Requests(after) == Requests(before) + (if IsCue(blocks[i]) then [CueText(blocks[i])] else [])
  {
    assert blocks[..i + 1] == blocks[..i] + [blocks[i]];
    FilterSnoc(IsCue, blocks[..i], blocks[i]);
    if IsCue(blocks[i]) {
      AppendCue(Filter(IsCue, blocks[..i]), blocks[i], translate);
    }
  }

  /** What the endpoint returns as `translated_srt`. It is empty exactly when the file
      holds no cue, since every rebuilt cue has at least its two header newlines. */
  function TranslatedSrt(srt: string, translate: string -> string): (out: string)
    ensures out == "" <==> Cues(srt) == []
  {
    var rebuilt := Rebuilt(Cues(srt), translate);
    assert |rebuilt| > 0 ==> |rebuilt[0]| >= 2;
    Join("\n\n", rebuilt)
  }

  /** The body of the endpoint's loop for one block: `kept` is false where the loop
      skips the block with `continue`; otherwise `rebuilt` is the block to append and
      `text` the text handed to the translator. */
  method RebuildBlock(block: string, translate: string -> string)
    returns (kept: bool, rebuilt: string, text: string)
    ensures kept == IsCue(block)
    ensures kept ==> rebuilt == RebuildCue(block, translate) && text == CueText(block)
  {
    rebuilt, text := "", "";
    if Strip(block) == "" {
      return false, rebuilt, text;
    }
    var lines := Split(Strip(block), "\n");
    if |lines| < 3 {
      return false, rebuilt, text;
    }
    var number := lines[0];
    var timecode := lines[1];
    text := Join(" ", lines[2..]);
    var translatedText := Strip(translate(text));
    rebuilt := number + "\n" + timecode + "\n" + translatedText;
    kept := true;
  }

  /** The endpoint's loop over the blocks: the rebuilt cues in block order, and the
      texts handed to the translator, in the order they were handed over. */
  method TranslateBlocks(blocks: seq<string>, translate: string -> string)
    returns (translatedBlocks: seq<string>, requests: seq<string>)
    ensures translatedBlocks == Rebuilt(Filter(IsCue, blocks), translate)
    ensures requests == Requests(Filter(IsCue, blocks))
  {
    translatedBlocks, requests := [], [];
    for i := 0 to |blocks|
      invariant translatedBlocks == Rebuilt(Filter(IsCue, blocks[..i]), translate)
      invariant requests == Requests(Filter(IsCue, blocks[..i]))
    {
      var kept, rebuilt, text := RebuildBlock(blocks[i], translate);
      NextBlock(blocks, i, translate);
      if kept {
        translatedBlocks := translatedBlocks + [rebuilt];
        requests := requests + [text];
      }
    }
    assert blocks[..|blocks|] == blocks;
  }

  /** The whole endpoint: split into blocks, translate cue by cue, join the rebuilt
      blocks with blank lines. */
  method TranslateSrt(srt: string, translate: string -> string)
    returns (translated: string, requests: seq<string>)
    ensures translated == TranslatedSrt(srt, translate)
    ensures requests == Requests(Cues(srt))
  {
    var blocks := Split(Strip(srt), "\n\n");
    var translatedBlocks;
    translatedBlocks, requests := TranslateBlocks(blocks, translate);
    translated := Join("\n\n", translatedBlocks);
  }

  /** Blank blocks and blocks of fewer than three lines are dropped, every other block
      yields one rebuilt block: there are as many output blocks as cues, never more than
      input blocks, and as many as input blocks exactly when every block is a cue. */
  lemma CueCount(srt: string, translate: string -> string)
    ensures |Rebuilt(Cues(srt), translate)| == |Cues(srt)| <= |Blocks(srt)|
    ensures |Cues(srt)| == |Blocks(srt)| <==> forall i :: 0 <= i < |Blocks(srt)| ==> IsCue(Blocks(srt)[i])
  {
    FilterKeepsAll(IsCue, Blocks(srt));
  }

  lemma BlockProvenance(blocks: seq<string>, translate: string -> string)
    ensures var cues, p := Filter(IsCue, blocks), KeptPositions(IsCue, blocks);
      && |p| == |Rebuilt(cues, translate)|
      && (forall k :: 0 <= k < |cues| ==>
            && p[k] < |blocks|
            && cues[k] == blocks[p[k]]
            && Rebuilt(cues, translate)[k] == RebuildCue(blocks[p[k]], translate)
            && Requests(cues)[k] == CueText(blocks[p[k]]))
      && (forall k, l :: 0 <= k < l < |cues| ==> p[k] < p[l])
      && (forall i :: 0 <= i < |blocks| && IsCue(blocks[i]) ==> i in p)
  {
    var cues, p := Filter(IsCue, blocks), KeptPositions(IsCue, blocks);
    FilterPositions(IsCue, blocks);
    forall k | 0 <= k < |cues|
      ensures p[k] < |blocks| && cues[k] == blocks[p[k]]
      ensures Rebuilt(cues, translate)[k] == RebuildCue(blocks[p[k]], translate)
      ensures Requests(cues)[k] == CueText(blocks[p[k]])
    {
    }
  }

  /** Order and provenance: the k-th output block is rebuilt from the k-th cue, whose
      text was the k-th translation request, and the cues are exactly the cue blocks of
      the input, in input order. */
  lemma OutputProvenance(srt: string, translate: string -> string)
    ensures |KeptPositions(IsCue, Blocks(srt))| == |Rebuilt(Cues(srt), translate)|
    ensures forall k :: 0 <= k < |Cues(srt)| ==>
      var i := KeptPositions(IsCue, Blocks(srt))[k];
      && i < |Blocks(srt)|
      && Cues(srt)[k] == Blocks(srt)[i]
      && Rebuilt(Cues(srt), translate)[k] == RebuildCue(Blocks(srt)[i], translate)
      && Requests(Cues(srt))[k] == CueText(Blocks(srt)[i])
    ensures forall k, l :: 0 <= k < l < |Cues(srt)| ==>
      KeptPositions(IsCue, Blocks(srt))[k] < KeptPositions(IsCue, Blocks(srt))[l]
    ensures forall i :: 0 <= i < |Blocks(srt)| && IsCue(Blocks(srt)[i]) ==>
      i in KeptPositions(IsCue, Blocks(srt))
  {
    BlockProvenance(Blocks(srt), translate);
  }

  lemma HeaderLines(number: string, timecode: string, text: string)
    requires '\n' !in number && '\n' !in timecode
    ensures Split(number + "\n" + timecode + "\n" + text, "\n") == [number, timecode] + Split(text, "\n")
  {
    var rest := timecode + "\n" + text;
    assert number + "\n" + timecode + "\n" + text == number + ['\n'] + rest;
    SplitAround(number, '\n', rest);
    SplitAround(timecode, '\n', text);
    SplitWithoutChar(number, '\n');
    SplitWithoutChar(timecode, '\n');
  }
}
