/** The clipboard monitor of `src/index.tsx`: on every clipboard change it
    probes the clipboard for a kind, reads the active window, drops a payload
    equal to the previous one of its slot (one slot for images, one for all
    text-like kinds), promotes plain text to `url` or `color`, and asks the
    store to save what remains. The clipboard plugin's probes and reads and
    the `get_current_window` answer are inputs; the save calls and the
    `clipboard_saved` event are recorded outputs. */
module Ingest {
  import opened Wrappers
  import opened Text
  import opened Seqs

  /** What `hasFiles()`, `hasImage()`, `hasHTML()` and `hasText()` answered. */
  datatype Probes = Probes(hasFiles: bool, hasImage: bool, hasHtml: bool, hasText: bool)

  /** What `readFiles()`, `readImageBase64()`, `readText()` and `readHtml()`
      return for this change. */
  datatype ClipboardData = ClipboardData(files: seq<string>, image: string, text: string, html: string)

  /** The `get_current_window` answer. */
  datatype ActiveWindow = ActiveWindow(title: string, processPath: string)

  /** One clipboard change as the monitor observes it. */
  datatype Change = Change(probes: Probes, data: ClipboardData, window: ActiveWindow)

  datatype Kind = Files | Image | Html | PlainText

  /** The arguments of one `save_clipboard_to_db` call; `kind` is `None` for
      the JavaScript `null` type. */
  datatype SaveCall = SaveCall(content: string, windowTitle: string, windowExe: string,
                               kind: Option<string>, image: Option<string>, html: Option<string>)

  /** What the monitor emits, in order. */
  datatype Output = Saved(call: SaveCall) | ClipboardSavedEvent

  /** The last payload seen per slot (`prevImage`, `prevText`). */
  datatype Guard = Guard(prevImage: string, prevText: string)

  // ---------------------------------------------------------------- kind

  predicate Probed(p: Probes, k: Kind) {
    match k
    case Files => p.hasFiles
    case Image => p.hasImage
    case Html => p.hasHtml
    case PlainText => p.hasText
  }

  /** Position in the precedence order, highest precedence first. */
  function Rank(k: Kind): nat {
    match k
    case Files => 0
    case Image => 1
    case Html => 2
    case PlainText => 3
  }

  function KindName(k: Kind): string {
    match k
    case Files => "files"
    case Image => "image"
    case Html => "html"
    case PlainText => "text"
  }

  /** The ternary chain over the probes: the reported kind of highest
      precedence, or `null` when no probe reports one. */
  function SelectKind(p: Probes): (r: Option<Kind>)
    ensures r.None? <==> forall k :: !Probed(p, k)
    ensures r.Some? ==> Probed(p, r.value) && forall k :: Rank(k) < Rank(r.value) ==> !Probed(p, k)
  {
    if p.hasFiles then assert Probed(p, Files); Some(Files)
    else if p.hasImage then assert Probed(p, Image); Some(Image)
    else if p.hasHtml then assert Probed(p, Html); Some(Html)
    else if p.hasText then assert Probed(p, PlainText); Some(PlainText)
    else None
  }

  // ---------------------------------------------------------------- window

  const PathSeparators: set<char> := {'/', '\\'}

  /** `process_path.split(/[/\\]/).pop() || process_path`. */
  function ExeName(path: string): string {
    var last := Last(Split(path, PathSeparators));
    if last == [] then path else last
  }

  /** The executable name is the last path segment; a path that ends in a
      separator (or is empty) is kept whole. */
  lemma ExeNameIsBasename(path: string)
    ensures |ExeName(path)| <= |path| && ExeName(path) == path[|path| - |ExeName(path)|..]
    ensures path == [] || path[|path| - 1] in PathSeparators ==> ExeName(path) == path
    ensures path != [] && path[|path| - 1] !in PathSeparators ==>
      NoneIn(ExeName(path), PathSeparators)
      && (ExeName(path) == path || path[|path| - |ExeName(path)| - 1] in PathSeparators)
  {
    SplitLast(path, PathSeparators);
    var last := Last(Split(path, PathSeparators));
    assert ExeName(path) == if last == [] then path else last;
  }

  // ---------------------------------------------------------------- promotion

  predicate StartsWithIgnoreCase(s: string, prefix: string) {
    OccursAt(s, prefix, 0)
  }

  /** `/^(https?:\/\/|www\.)\S+$/i.test(s)`. */
  predicate IsUrl(s: string) {
    exists prefix | prefix in ["http://", "https://", "www."] ::
      StartsWithIgnoreCase(s, prefix) && |s| > |prefix| && NoSpace(s[|prefix|..])
  }

  predicate IsHexDigit(c: char) {
    '0' <= c <= '9' || 'a' <= c <= 'f' || 'A' <= c <= 'F'
  }

  /** `#[0-9A-Fa-f]{3,8}` matched against the whole string. */
  predicate IsHexColor(t: string) {
    4 <= |t| <= 9 && t[0] == '#' && forall k :: 1 <= k < |t| ==> IsHexDigit(t[k])
  }

  /** `name\(.*\)` matched against the whole string. */
  predicate IsCssCall(t: string, name: string) {
    |t| >= |name| + 2 && t[..|name| + 1] == name + "(" && t[|t| - 1] == ')'
    && forall k :: |name| + 1 <= k < |t| - 1 ==> !IsLineTerminator(t[k])
  }

  /** `/^(#[0-9A-Fa-f]{3,8}|rgb\(.*\)|rgba\(.*\)|hsl\(.*\)|hsla\(.*\))$/.test(t)`. */
  predicate IsColor(t: string) {
    IsHexColor(t) || IsCssCall(t, "rgb") || IsCssCall(t, "rgba")
    || IsCssCall(t, "hsl") || IsCssCall(t, "hsla")
  }

  /** A URL has no white space anywhere, so trimming leaves it alone. */
  lemma UrlHasNoSpace(s: string)
    requires IsUrl(s)
    ensures NoSpace(s) && Trim(s) == s
  {
    var prefix :| prefix in ["http://", "https://", "www."]
      && StartsWithIgnoreCase(s, prefix) && |s| > |prefix| && NoSpace(s[|prefix|..]);
    forall k | 0 <= k < |s| ensures !IsSpace(s[k]) {
      if k < |prefix| {
        assert Lower(s[..|prefix|][k]) == Lower(prefix[k]);
      } else {
        assert s[k] == s[|prefix|..][k - |prefix|];
      }
    }
  }

  /** Where a URL can start: `h` then `t`, or `w`, in either case. */
  lemma UrlStart(s: string)
    requires IsUrl(s)
    ensures |s| >= 2
    ensures (Lower(s[0]) == 'h' && Lower(s[1]) == 't') || Lower(s[0]) == 'w'
  {
    var prefix :| prefix in ["http://", "https://", "www."]
      && StartsWithIgnoreCase(s, prefix) && |s| > |prefix| && NoSpace(s[|prefix|..]);
    assert s[..|prefix|][0] == s[0] && s[..|prefix|][1] == s[1];
  }

  /** Where a color literal can start: `#`, `r`, or `h` followed by `s`. */
  lemma ColorStart(t: string)
    requires IsColor(t)
    ensures |t| >= 2
    ensures t[0] == '#' || t[0] == 'r' || (t[0] == 'h' && t[1] == 's')
  {
    if !IsHexColor(t) {
      assert t[0] == t[..4][0] && t[1] == t[..4][1];
    }
  }

  /** No content is promoted both ways: the URL and color patterns never both
      match. */
  lemma UrlAndColorExclusive(content: string)
    ensures !(IsUrl(content) && IsColor(Trim(content)))
  {
    if IsUrl(content) && IsColor(Trim(content)) {
      UrlHasNoSpace(content);
      UrlStart(content);
      ColorStart(content);
      assert false;
    }
  }

  /** The `type` sent to the store for a text-like event. */
  function SavedType(kind: Option<Kind>, content: string): Option<string> {
    var isUrl := kind == Some(PlainText) && IsUrl(content);
    var isColor := kind == Some(PlainText) && IsColor(Trim(content));
    if isColor then Some("color")
    else if isUrl then Some("url")
    else if kind.Some? then Some(KindName(kind.value))
    else None
  }

  // ---------------------------------------------------------------- one change

  /** One `saveClipboard()` run as a value: the guard after it and the save
      call it makes, if any. */
  function Ingest(g: Guard, c: Change): (Guard, Option<SaveCall>) {
    var kind := SelectKind(c.probes);
    var title := c.window.title;
    var exe := ExeName(c.window.processPath);
    if kind == Some(Files) then
      (g, Some(SaveCall(Join(c.data.files, ','), title, exe, Some("files"), None, None)))
    else if kind == Some(Image) then
      if c.data.image != g.prevImage then
        (g.(prevImage := c.data.image),
         Some(SaveCall("", title, exe, Some("image"), Some(c.data.image), None)))
      else (g, None)
    else
      var content := c.data.text;
      if content != g.prevText then
        var html := if kind == Some(Html) then c.data.html else "";
        (g.(prevText := content),
         Some(SaveCall(content, title, exe, SavedType(kind, content), None, Some(html))))
      else (g, None)
  }

  /** A file list is never deduplicated: it is always saved, as the
      comma-joined list with no image, and the guard is untouched. */
  lemma FilesAlwaysSaved(g: Guard, c: Change)
    requires SelectKind(c.probes) == Some(Files)
    ensures Ingest(g, c).0 == g
    ensures Ingest(g, c).1 == Some(SaveCall(Join(c.data.files, ','), c.window.title,
      ExeName(c.window.processPath), Some("files"), None, None))
  {
  }

  /** An image equal to `prevImage` is dropped; otherwise it becomes
      `prevImage` and is saved with empty content. The text slot is untouched. */
  lemma ImageGuard(g: Guard, c: Change)
    requires SelectKind(c.probes) == Some(Image)
    ensures Ingest(g, c).0 == Guard(c.data.image, g.prevText)
    ensures Ingest(g, c).1.Some? <==> c.data.image != g.prevImage
    ensures Ingest(g, c).1.Some? ==>
      (Ingest(g, c).1.value.content == "" && Ingest(g, c).1.value.image == Some(c.data.image))
  {
  }

  /** For html, text and the null kind, text equal to `prevText` is dropped;
      otherwise it becomes `prevText` and is saved unchanged. The image slot is
      untouched. */
  lemma TextGuard(g: Guard, c: Change)
    requires SelectKind(c.probes) != Some(Files) && SelectKind(c.probes) != Some(Image)
    ensures Ingest(g, c).0 == Guard(g.prevImage, c.data.text)
    ensures Ingest(g, c).1.Some? <==> c.data.text != g.prevText
    ensures Ingest(g, c).1.Some? ==>
      (Ingest(g, c).1.value.content == c.data.text && Ingest(g, c).1.value.image.None?)
  {
  }

  /** The saved type: `color` if the kind is text and the trimmed content is
      a color literal, else `url` if the kind is text and the content a URL,
      else the probed kind (`null` when nothing was probed). */
  lemma PromotionOnlyFromText(g: Guard, c: Change)
    requires SelectKind(c.probes) != Some(Files) && SelectKind(c.probes) != Some(Image)
    requires Ingest(g, c).1.Some?
    ensures var t := Ingest(g, c).1.value.kind;
      var text := SelectKind(c.probes) == Some(PlainText);
      && (t == Some("color") <==> text && IsColor(Trim(c.data.text)))
      && (t == Some("url") <==> text && IsUrl(c.data.text))
      && (!(text && (IsColor(Trim(c.data.text)) || IsUrl(c.data.text))) ==>
            t == (if SelectKind(c.probes).Some? then Some(KindName(SelectKind(c.probes).value)) else None))
  {
    UrlAndColorExclusive(c.data.text);
  }

  // ---------------------------------------------------------------- many changes

  /** The monitor over a sequence of changes: the final guard and the save
      calls made, in order. */
  function Run(g: Guard, cs: seq<Change>): (Guard, seq<SaveCall>)
    decreases |cs|
  {
    if cs == [] then (g, [])
    else
      var step := Ingest(g, cs[0]);
      var rest := Run(step.0, cs[1..]);
      (rest.0, (if step.1.Some? then [step.1.value] else []) + rest.1)
  }

  datatype Slot = ImageSlot | TextSlot

  /** The slot a save call belongs to (file lists belong to neither). */
  predicate InSlot(slot: Slot, call: SaveCall) {
    match slot
    case ImageSlot => call.kind == Some("image")
    case TextSlot => call.kind != Some("image") && call.kind != Some("files")
  }

  /** The payload the guard compares for that slot. */
  function SlotPayload(slot: Slot, call: SaveCall): string {
    match slot
    case ImageSlot => call.image.GetOr("")
    case TextSlot => call.content
  }

  function Remembered(slot: Slot, g: Guard): string {
    match slot
    case ImageSlot => g.prevImage
    case TextSlot => g.prevText
  }

  /** One change either saves a new payload into a slot and remembers it, or
      leaves that slot's memory as it was. */
  lemma StepSlot(slot: Slot, g: Guard, c: Change)
    ensures var (g', call) := Ingest(g, c);
      if call.Some? && InSlot(slot, call.value)
      then SlotPayload(slot, call.value) != Remembered(slot, g)
        && Remembered(slot, g') == SlotPayload(slot, call.value)
      else Remembered(slot, g') == Remembered(slot, g)
  {
    var kind := SelectKind(c.probes);
    if kind != Some(Files) && kind != Some(Image) {
      TextGuard(g, c);
      UrlAndColorExclusive(c.data.text);
    }
  }

  /** The duplicate guard never lets two equal payloads of one slot be saved
      one after the other, nor a first one equal to what the guard started
      with. A payload can still be saved again once another one of its slot
      came in between. */
  lemma {:induction false} NoConsecutiveDuplicates(slot: Slot, g: Guard, cs: seq<Change>)
    ensures var saves := Filter(Run(g, cs).1, call => InSlot(slot, call));
      && (|saves| > 0 ==> SlotPayload(slot, saves[0]) != Remembered(slot, g))
      && forall i :: 0 <= i < |saves| - 1 ==> SlotPayload(slot, saves[i]) != SlotPayload(slot, saves[i + 1])
    decreases |cs|
  {
    var p := call => InSlot(slot, call);
    if cs != [] {
      var step := Ingest(g, cs[0]);
      var first := if step.1.Some? then [step.1.value] else [];
      var rest := Run(step.0, cs[1..]).1;
      StepSlot(slot, g, cs[0]);
      NoConsecutiveDuplicates(slot, step.0, cs[1..]);
      FilterAppend(first, rest, p);
      assert Run(g, cs).1 == first + rest;
      var head := Filter(first, p);
      var tail := Filter(rest, p);
      assert head == [] || (|head| == 1 && head[0] == step.1.value && InSlot(slot, step.1.value));
    }
  }

  // ---------------------------------------------------------------- the monitor

  /** The state `saveClipboard` closes over: the two `createSignal` slots, and
      the outputs recorded so far. */
  class Monitor {
    var prevImage: string
    var prevText: string
    var outputs: seq<Output>

    constructor ()
      ensures prevImage == "" && prevText == "" && outputs == []
    {
      prevImage := "";
      prevText := "";
      outputs := [];
    }

    function State(): Guard
      reads this
    {
      Guard(prevImage, prevText)
    }

    /** `saveClipboard()`: picks the kind, reads the window, consults and
        updates the guard, then records the save call (if any). */
    method SaveClipboard(c: Change)
      modifies this
      ensures State() == Ingest(old(State()), c).0
      ensures outputs == old(outputs) + (if Ingest(old(State()), c).1.Some?
                                         then [Saved(Ingest(old(State()), c).1.value)] else [])
    {
      var kind := SelectKind(c.probes);
      var windowTitle := c.window.title;
      var windowExe := ExeName(c.window.processPath);
      if kind == Some(Files) {
        var files := c.data.files;
        outputs := outputs + [Saved(SaveCall(Join(files, ','), windowTitle, windowExe,
                                             Some("files"), None, None))];
      } else if kind == Some(Image) {
        var image := c.data.image;
        if image != prevImage {
          prevImage := image;
        } else {
          return;
        }
        outputs := outputs + [Saved(SaveCall("", windowTitle, windowExe, Some("image"), Some(image), None))];
      } else {
        var content := c.data.text;
        if content != prevText {
          prevText := content;
        } else {
          return;
        }
        var html := if kind == Some(Html) then c.data.html else "";
        var isUrl := kind == Some(PlainText) && IsUrl(content);
        var isColorCode := kind == Some(PlainText) && IsColor(Trim(content));
        var savedType := if isColorCode then Some("color") else if isUrl then Some("url")
                         else if kind.Some? then Some(KindName(kind.value)) else None;
        outputs := outputs + [Saved(SaveCall(content, windowTitle, windowExe, savedType, None, Some(html)))];
      }
    }

    /** The `onClipboardUpdate` handler: awaits `saveClipboard()` and then
        emits `clipboard_saved`, also when the change was dropped. */
    method OnClipboardUpdate(c: Change)
      modifies this
      ensures State() == Ingest(old(State()), c).0
      ensures outputs == old(outputs) + (if Ingest(old(State()), c).1.Some?
                                         then [Saved(Ingest(old(State()), c).1.value)] else [])
                                      + [ClipboardSavedEvent]
    {
      SaveClipboard(c);
      outputs := outputs + [ClipboardSavedEvent];
    }
  }
}
