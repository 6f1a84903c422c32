/**
 * `split_text` (utils/voice_utils.py): cutting a text into pieces short enough
 * for one speech-synthesis request, preferring to cut right after a
 * separator, and the separators and length its callers use.
 */
module VoiceUtils {
  import opened Wrappers

  /** `sep` occurs in `s` starting at index `i`. */
  predicate Occurs(s: string, sep: string, i: int)
  {
    0 <= i && i + |sep| <= |s| && s[i..i + |sep|] == sep
  }

  /** The last start index of `sep` in `s` at or below `i`, scanning down. */
  function LastIndexFrom(s: string, sep: string, i: int): (r: Option<nat>)
    requires i + |sep| <= |s|
    ensures r.Some? ==> r.value <= i && Occurs(s, sep, r.value)
    ensures r.Some? ==> forall j :: r.value < j <= i ==> !Occurs(s, sep, j)
    ensures r.None? ==> forall j :: j <= i ==> !Occurs(s, sep, j)
    decreases i + 1
  {
    if i < 0 then None
    else if s[i..i + |sep|] == sep then Some(i)
    else LastIndexFrom(s, sep, i - 1)
  }

  /** Where `s.rsplit(sep, 1)` cuts: the start of the last occurrence of `sep`, if any. */
  function LastIndex(s: string, sep: string): (r: Option<nat>)
    ensures r.Some? ==> Occurs(s, sep, r.value)
    ensures r.Some? ==> forall j :: Occurs(s, sep, j) ==> j <= r.value
    ensures r.None? ==> forall j :: !Occurs(s, sep, j)
  {
    if |sep| > |s| then None else LastIndexFrom(s, sep, |s| - |sep|)
  }

  function MaxOption(a: Option<nat>, b: Option<nat>): Option<nat>
  {
    match (a, b)
    case (None, _) => b
    case (_, None) => a
    case (Some(x), Some(y)) => if x >= y then a else b
  }

  /**
   * The longest candidate of the window `sub`: for every separator occurring
   * in it, the prefix up to and including its last occurrence; None when no
   * separator occurs.
   */
  function BestEnd(sub: string, seps: seq<string>): Option<nat>
  {
    if seps == [] then None
    else MaxOption(EndOf(sub, seps[0]), BestEnd(sub, seps[1..]))
  }

  /** The end of the last occurrence of `sep` in `sub`, if any. */
  function EndOf(sub: string, sep: string): Option<nat>
  {
    match LastIndex(sub, sep)
    case None => None
    case Some(i) => Some(i + |sep|)
  }

  /**
   * No candidate exactly when no separator occurs; otherwise the candidate
   * ends right after some occurrence, and no occurrence ends later.
   */
  lemma {:induction false} BestEndSpec(sub: string, seps: seq<string>)
    ensures var r := BestEnd(sub, seps);
      && (r.None? <==> forall sep, i :: sep in seps ==> !Occurs(sub, sep, i))
      && (r.Some? ==> exists sep :: sep in seps && Occurs(sub, sep, r.value - |sep|))
      && (r.Some? ==> forall sep, i :: sep in seps && Occurs(sub, sep, i) ==> i + |sep| <= r.value)
  {
    if seps != [] {
      BestEndSpec(sub, seps[1..]);
      MaxOptionSpec(sub, seps, EndOf(sub, seps[0]), BestEnd(sub, seps[1..]));
    }
  }

  /** The later of the first separator's candidate and the best of the others is the best of all. */
  lemma MaxOptionSpec(sub: string, seps: seq<string>, here: Option<nat>, rest: Option<nat>)
    requires seps != []
    requires here.None? <==> forall i :: !Occurs(sub, seps[0], i)
    requires here.Some? ==> Occurs(sub, seps[0], here.value - |seps[0]|)
    requires here.Some? ==> forall i :: Occurs(sub, seps[0], i) ==> i + |seps[0]| <= here.value
    requires rest.None? <==> forall sep, i :: sep in seps[1..] ==> !Occurs(sub, sep, i)
    requires rest.Some? ==> exists sep :: sep in seps[1..] && Occurs(sub, sep, rest.value - |sep|)
    requires rest.Some? ==> forall sep, i :: sep in seps[1..] && Occurs(sub, sep, i) ==> i + |sep| <= rest.value
    ensures var r := MaxOption(here, rest);
      && (r.None? <==> forall sep, i :: sep in seps ==> !Occurs(sub, sep, i))
      && (r.Some? ==> exists sep :: sep in seps && Occurs(sub, sep, r.value - |sep|))
      && (r.Some? ==> forall sep, i :: sep in seps && Occurs(sub, sep, i) ==> i + |sep| <= r.value)
  {
    assert forall sep :: sep in seps <==> sep == seps[0] || sep in seps[1..];
    if rest.Some? {
      var sep :| sep in seps[1..] && Occurs(sub, sep, rest.value - |sep|);
      assert sep in seps;
    }
    if here.Some? {
      assert seps[0] in seps;
    }
  }

  datatype SplitError =
    | EmptySeparator   // ValueError from `rsplit("", 1)`
    | RecursionLimit   // RecursionError: a window of length zero or less never shrinks the text

  /** `split_text`: the pieces, each cut at the end of the best candidate or at `maxLength`. */
  function SplitText(text: string, maxLength: int, seps: seq<string>): (r: Result<seq<string>, SplitError>)
    ensures r.Ok? <==> maxLength >= 1 && ("" !in seps || |text| < maxLength)
    decreases |text|
  {
    if maxLength <= 0 then (if "" in seps then Err(EmptySeparator) else Err(RecursionLimit))
    else if |text| < maxLength then Ok([text])
    else if "" in seps then Err(EmptySeparator)
    else
      var pos := CutPosition(text, maxLength, seps);
      match SplitText(text[pos..], maxLength, seps)
      case Err(e) => Err(e)
      case Ok(rest) => Ok([text[..pos]] + rest)
  }

  /** Where the first piece of a text at least `maxLength` long ends. */
  function CutPosition(text: string, maxLength: nat, seps: seq<string>): (pos: nat)
    requires 1 <= maxLength <= |text| && "" !in seps
    ensures 1 <= pos <= maxLength
  {
    var sub := text[..maxLength];
    BestEndPositive(sub, seps);
    match BestEnd(sub, seps)
    case None => maxLength
    case Some(e) => e
  }

  /** Without the empty separator every candidate is non-empty, so each cut makes progress. */
  lemma BestEndPositive(sub: string, seps: seq<string>)
    requires "" !in seps
    ensures BestEnd(sub, seps).Some? ==> 1 <= BestEnd(sub, seps).value <= |sub|
  {
    BestEndSpec(sub, seps);
    if BestEnd(sub, seps).Some? {
      var sep :| sep in seps && Occurs(sub, sep, BestEnd(sub, seps).value - |sep|);
    }
  }

  function Concat(pieces: seq<string>): string
  {
    if pieces == [] then "" else pieces[0] + Concat(pieces[1..])
  }

  /** Joining the pieces gives back the text. */
  lemma {:induction false} SplitConcat(text: string, maxLength: int, seps: seq<string>)
    requires SplitText(text, maxLength, seps).Ok?
    ensures Concat(SplitText(text, maxLength, seps).value) == text
    decreases |text|
  {
    var pieces := SplitText(text, maxLength, seps).value;
    if |text| < maxLength {
      assert pieces == [text];
      assert Concat(pieces) == text + Concat([]);
    } else {
      var pos := CutPosition(text, maxLength, seps);
      var rest := SplitText(text[pos..], maxLength, seps);
      assert rest.Ok?;
      assert pieces == [text[..pos]] + rest.value;
      SplitConcat(text[pos..], maxLength, seps);
      assert pieces[1..] == rest.value;
      assert text[..pos] + text[pos..] == text;
    }
  }

  /** Every piece fits in `maxLength`, and the last one is strictly shorter. */
  lemma {:induction false} SplitBounds(text: string, maxLength: int, seps: seq<string>)
    requires SplitText(text, maxLength, seps).Ok?
    ensures var pieces := SplitText(text, maxLength, seps).value;
      && |pieces| >= 1
      && (forall k :: 0 <= k < |pieces| ==> |pieces[k]| <= maxLength)
      && |pieces[|pieces| - 1]| < maxLength
    decreases |text|
  {
    if |text| >= maxLength {
      var pos := CutPosition(text, maxLength, seps);
      SplitBounds(text[pos..], maxLength, seps);
      var pieces := SplitText(text, maxLength, seps).value;
      var rest := SplitText(text[pos..], maxLength, seps).value;
      assert pieces == [text[..pos]] + rest;
      forall k | 0 <= k < |pieces| ensures |pieces[k]| <= maxLength {
        if k > 0 { assert pieces[k] == rest[k - 1]; }
      }
    }
  }

  /**
   * The first piece of a long text: if a separator occurs within the first
   * `maxLength` characters, it ends right after the occurrence that ends
   * furthest right; otherwise it is exactly `maxLength` long.
   */
  lemma FirstCut(text: string, maxLength: int, seps: seq<string>)
    requires SplitText(text, maxLength, seps).Ok? && |text| >= maxLength
    ensures var first := SplitText(text, maxLength, seps).value[0];
      var window := text[..maxLength];
      && first == text[..|first|]
      && ((exists sep, i :: sep in seps && Occurs(window, sep, i)) ==>
            && (exists sep :: sep in seps && Occurs(window, sep, |first| - |sep|))
            && (forall sep, i :: sep in seps && Occurs(window, sep, i) ==> i + |sep| <= |first|))
      && ((forall sep, i :: sep in seps ==> !Occurs(window, sep, i)) ==> |first| == maxLength)
  {
    BestEndSpec(text[..maxLength], seps);
  }

  /** A text shorter than `maxLength` is its own single piece. */
  lemma ShortTextWhole(text: string, maxLength: int, seps: seq<string>)
    requires |text| < maxLength
    ensures SplitText(text, maxLength, seps) == Ok([text])
  {
  }

  /** The separators and piece length `text_to_segment` and `text_to_wav` use. */
  const Separators: seq<string> := ["。", "、", ". "]
  const MaxLength: nat := 300

  /** The pieces `text_to_segment` and `text_to_wav` synthesise one by one. */
  function TextToPieces(text: string): (r: Result<seq<string>, SplitError>)
  {
    SplitText(text, MaxLength, Separators)
  }

  /** With the callers' constants the split never fails, and it loses nothing. */
  lemma TextToPiecesTotal(text: string)
    ensures TextToPieces(text).Ok?
    ensures Concat(TextToPieces(text).value) == text
    ensures forall k :: 0 <= k < |TextToPieces(text).value| ==> |TextToPieces(text).value[k]| <= MaxLength
  {
    SplitConcat(text, MaxLength, Separators);
    SplitBounds(text, MaxLength, Separators);
  }
}
