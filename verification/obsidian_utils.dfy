/** Link builders (src/utils/obsidian-utils.ts, and the copy of
    `convertPathToObsidianLink` in src/utils/md-utils.ts). The vault name the
    host reports is a parameter. */
module ObsidianUtils {
  import opened Optional
  import opened Strings
  import opened Uri

  /** `formatRelativeLink(path, caption)`: a wiki link with an alias. */
  function FormatRelativeLink(path: string, caption: string): string {
    "[[" + path + "|" + caption + "]]"
  }

  /** Reads a wiki link with alias back: the path runs up to the first `|`. */
  function ParseRelativeLink(s: string): Option<(string, string)> {
    if |s| >= 4 && s[..2] == "[[" && s[|s| - 2..] == "]]" then
      var inner := s[2..|s| - 2];
      match IndexOfFrom(inner, "|", 0)
      case None => None
      case Some(j) => Some((inner[..j], inner[j + 1..]))
    else None
  }

  /** A path without `|` and any alias are recovered from the link. */
  lemma RelativeLinkRoundTrip(path: string, caption: string)
    requires '|' !in path
    ensures ParseRelativeLink(FormatRelativeLink(path, caption)) == Some((path, caption))
  {
    var s := FormatRelativeLink(path, caption);
    var inner := path + "|" + caption;
    assert s == "[[" + inner + "]]";
    assert s[2..|s| - 2] == inner;
    IndexAfterFree(path, "|", caption);
    assert IndexOfFrom(inner, "|", 0) == Some(|path|);
    assert inner[..|path|] == path && inner[|path| + 1..] == caption;
  }

  const LinkPrefix := "obsidian://open?vault="
  const FileField := "&file="

  /** `convertPathToObsidianLink(app, path)` for a vault called `vaultName`. */
  function ConvertPathToObsidianLink(vaultName: string, path: string): string {
    LinkPrefix + EncodeUriComponent(vaultName) + FileField + EncodeUriComponent(path)
  }

  /** Splits an `obsidian://open` URI into its two encoded fields at the first
      `&file=`. */
  function ObsidianLinkFields(s: string): Option<(string, string)> {
    if StartsWith(s, LinkPrefix) then
      var rest := s[|LinkPrefix|..];
      match IndexOfFrom(rest, FileField, 0)
      case None => None
      case Some(j) => Some((rest[..j], rest[j + |FileField|..]))
    else None
  }

  /** Since the encoder never emits `&`, the first `&file=` of a built URI is
      the separator, and both encoded fields come back out. */
  lemma ObsidianLinkRoundTrip(vaultName: string, path: string)
    ensures ObsidianLinkFields(ConvertPathToObsidianLink(vaultName, path))
      == Some((EncodeUriComponent(vaultName), EncodeUriComponent(path)))
  {
    ParseObsidianLink(EncodeUriComponent(vaultName), EncodeUriComponent(path));
  }

  lemma ParseObsidianLink(ev: string, ep: string)
    requires '&' !in ev
    ensures ObsidianLinkFields(LinkPrefix + ev + FileField + ep) == Some((ev, ep))
  {
    var rest := ev + FileField + ep;
    var s := LinkPrefix + ev + FileField + ep;
    assert s == LinkPrefix + rest;
    assert s[..|LinkPrefix|] == LinkPrefix && s[|LinkPrefix|..] == rest;
    IndexAfterFree(ev, FileField, ep);
    assert rest[..|ev|] == ev && rest[|ev| + |FileField|..] == ep;
  }

  /** `formatLink(path, caption)`: a Markdown link to the file's `obsidian://` URI. */
  function FormatLink(vaultName: string, path: string, caption: string): string {
    "[" + caption + "](" + ConvertPathToObsidianLink(vaultName, path) + ")"
  }

  /** Reads a Markdown link back: the caption runs up to the first `]`, which
      must be followed by `(`; the target runs to the closing `)`. */
  function ParseLink(s: string): Option<(string, string)> {
    if |s| >= 4 && s[0] == '[' && s[|s| - 1] == ')' then
      var inner := s[1..|s| - 1];
      match IndexOfFrom(inner, "](", 0)
      case None => None
      case Some(j) => Some((inner[..j], inner[j + 2..]))
    else None
  }

  /** A caption without `]` and the file's URI are recovered from the link. */
  lemma LinkRoundTrip(vaultName: string, path: string, caption: string)
    requires ']' !in caption
    ensures ParseLink(FormatLink(vaultName, path, caption))
      == Some((caption, ConvertPathToObsidianLink(vaultName, path)))
  {
    ParseMarkdownLink(caption, ConvertPathToObsidianLink(vaultName, path));
  }

  lemma ParseMarkdownLink(caption: string, url: string)
    requires ']' !in caption
    ensures ParseLink("[" + caption + "](" + url + ")") == Some((caption, url))
  {
    var s := "[" + caption + "](" + url + ")";
    var inner := caption + "](" + url;
    assert s == "[" + inner + ")";
    assert s[1..|s| - 1] == inner;
    IndexAfterFree(caption, "](", url);
    assert inner[..|caption|] == caption && inner[|caption| + 2..] == url;
  }
}
