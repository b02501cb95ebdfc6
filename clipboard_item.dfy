/** One entry of the history list as `src/components/clipboard-item.tsx`
    draws it: an icon chosen by the entry's type and either the picture or a
    one-line caption with the search query highlighted. */
module ClipboardItem {
  import opened Text
  import opened Highlight

  /** An entry as the frontend receives it (`src/types/clipboard.ts`). */
  datatype ClipboardHistory = ClipboardHistory(id: int, content: string, date: string, windowTitle: string,
                                               windowExe: string, kind: string, count: int, image: string)

  datatype Icon = ImageIcon | CodeIcon | FileIcon | Favicon | Swatch(background: string) | DocumentIcon

  /** What the entry's button holds besides its icon. */
  datatype Face = Picture(icon: Icon, src: string) | Caption(icon: Icon, text: Highlighted)

  const DataUrlPrefix: string := "data:image/png;base64,"

  /** `l` is the first `sep`-separated piece of `s`: the longest prefix of `s`
      without `sep`. */
  predicate IsFirstPiece(l: string, s: string, sep: char) {
    |l| <= |s| && l == s[..|l|] && NoneIn(l, {sep}) && (|l| == |s| || s[|l|] == sep)
  }

  /** `s.split(sep)[0]`. */
  function FirstPiece(s: string, sep: char): (l: string)
    ensures IsFirstPiece(l, s, sep)
  {
    SplitFirst(s, {sep});
    Split(s, {sep})[0]
  }

  /** A string has one first piece. */
  lemma FirstPieceUnique(a: string, b: string, s: string, sep: char)
    requires IsFirstPiece(a, s, sep) && IsFirstPiece(b, s, sep)
    ensures a == b
  {
    assert forall k :: 0 <= k < |a| ==> s[k] == a[k] && s[k] != sep;
    assert forall k :: 0 <= k < |b| ==> s[k] == b[k] && s[k] != sep;
  }

  /** The caption text of a non-image entry: the first line of the trimmed
      content for HTML and plain text, the first path for files, the whole
      content for URLs and colours. */
  function Label(item: ClipboardHistory): (l: string)
    requires item.kind != "image"
    ensures item.kind == "files" ==> IsFirstPiece(l, item.content, ',')
    ensures item.kind == "url" || item.kind == "color" ==> l == item.content
    ensures item.kind !in {"files", "url", "color"} ==> IsFirstPiece(l, Trim(item.content), '\n')
  {
    if item.kind == "html" then FirstPiece(Trim(item.content), '\n')
    else if item.kind == "files" then FirstPiece(item.content, ',')
    else if item.kind == "url" then item.content
    else if item.kind == "color" then item.content
    else FirstPiece(Trim(item.content), '\n')
  }

  /** The branch taken for each type: exactly one icon per type, and the
      picture only for images. */
  function Render(item: ClipboardHistory, searchQuery: string): (f: Face)
    ensures f.Picture? <==> item.kind == "image"
    ensures f.Picture? ==> f.src == DataUrlPrefix + item.image && f.icon == ImageIcon
    ensures f.Caption? ==> f.text == HighlightText(Label(item), searchQuery)
    ensures f.icon == CodeIcon <==> item.kind == "html"
    ensures f.icon == FileIcon <==> item.kind == "files"
    ensures f.icon == Favicon <==> item.kind == "url"
    ensures f.icon.Swatch? <==> item.kind == "color"
    ensures f.icon.Swatch? ==> f.icon.background == item.content
    ensures f.icon == DocumentIcon <==> item.kind !in {"image", "html", "files", "url", "color"}
  {
    if item.kind == "image" then Picture(ImageIcon, DataUrlPrefix + item.image)
    else
      var icon := if item.kind == "html" then CodeIcon
                  else if item.kind == "files" then FileIcon
                  else if item.kind == "url" then Favicon
                  else if item.kind == "color" then Swatch(item.content)
                  else DocumentIcon;
      Caption(icon, HighlightText(Label(item), searchQuery))
  }

  /** A caption is the label, whole when the query is empty and otherwise in
      parts that spell it out, with the odd-numbered parts highlighted. */
  lemma CaptionSpellsLabel(item: ClipboardHistory, searchQuery: string)
    requires item.kind != "image"
    ensures searchQuery == [] ==> Render(item, searchQuery).text == Unchanged(Label(item))
    ensures searchQuery != [] ==> (var ps := Render(item, searchQuery).text.parts;
      && |ps| % 2 == 1
      && Concat(seq(|ps|, i requires 0 <= i < |ps| => ps[i].text)) == Label(item)
      && forall i :: 0 <= i < |ps| ==> (ps[i].Marked? <==> i % 2 == 1))
  {
    HighlightKeepsText(Label(item), searchQuery);
    if searchQuery != [] {
      MarkedExactlyAtOddPositions(Label(item), searchQuery);
    }
  }

  /** A one-line entry of text or HTML is captioned by its trimmed content;
      otherwise the caption stops before the first line break. */
  lemma FirstLineCaption(item: ClipboardHistory)
    requires item.kind !in {"image", "files", "url", "color"}
    ensures '\n' !in Trim(item.content) ==> Label(item) == Trim(item.content)
    ensures '\n' in Trim(item.content) ==>
      |Label(item)| < |Trim(item.content)| && Trim(item.content)[|Label(item)|] == '\n'
  {
    var t, l := Trim(item.content), Label(item);
    if '\n' in t {
      var k :| 0 <= k < |t| && t[k] == '\n';
      assert forall j :: 0 <= j < |l| ==> l[j] == t[j] && l[j] != '\n';
      assert k >= |l|;
    }
  }

  /** A file list saved comma-joined is captioned by its first path, as long
      as that path holds no comma. */
  lemma FilesCaptionIsFirstPath(item: ClipboardHistory, files: seq<string>)
    requires item.kind == "files" && files != [] && NoneIn(files[0], {','})
    requires item.content == Join(files, ',')
    ensures Label(item) == files[0]
  {
    JoinFirst(files, ',');
    FirstPieceUnique(Label(item), files[0], item.content, ',');
  }
}
