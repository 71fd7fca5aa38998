/**
 * The progress file (`load_progress`, `save_progress`): the id of the last
 * video the updater finished, kept so that an interrupted run resumes after
 * it.
 *
 * Parsing JSON is a parameter: `parse(text)` is `None` when the text is not
 * valid JSON, `Some(None)` when it parses but carries no `last_video_id`,
 * and `Some(Some(id))` otherwise.
 */
module Progress {
  import opened Text

  /** The progress file: absent, or present with its text. */
  datatype ProgressFile = Missing | Present(content: string)

  /** What loading found: the saved cursor, and whether the file is to be removed. */
  datatype Loaded = Loaded(lastVideoId: Option<string>, removeFile: bool)

  /**
   * `load_progress`: a missing file means no cursor; a blank file or one
   * that is not JSON means no cursor and the file is removed; otherwise the
   * cursor is what the JSON holds.
   */
  function LoadProgress(file: ProgressFile, parse: string -> Option<Option<string>>): (l: Loaded)
    ensures file.Missing? ==> l == Loaded(None, false)
    ensures l.removeFile <==> file.Present? && (Strip(file.content) == "" || parse(Strip(file.content)).None?)
    ensures l.lastVideoId.Some? ==> file.Present? && parse(Strip(file.content)) == Some(l.lastVideoId)
    ensures file.Present? && Strip(file.content) != "" && parse(Strip(file.content)).Some? ==>
      l.lastVideoId == parse(Strip(file.content)).value
  {
    match file
    case Missing => Loaded(None, false)
    case Present(text) =>
      var content := Strip(text);
      if content == "" then Loaded(None, true)
      else match parse(content)
        case None => Loaded(None, true)
        case Some(last) => Loaded(last, false)
  }

  /** The lower-case hexadecimal digit for `d`. */
  function HexDigit(d: nat): (c: char)
    requires d < 16
    ensures '0' <= c <= '9' || 'a' <= c <= 'f'
  {
    "0123456789abcdef"[d]
  }

  /** Only printable ASCII characters. */
  predicate Printable(s: string) {
    forall i :: 0 <= i < |s| ==> ' ' <= s[i] <= '~'
  }

  /** Four lower-case hexadecimal digits, as `'{0:04x}'.format(n)`. */
  function Hex4(n: nat): (h: string)
    requires n < 0x1_0000
    ensures |h| == 4 && Printable(h)
  {
    [HexDigit(n / 0x1000), HexDigit(n / 0x100 % 16), HexDigit(n / 16 % 16), HexDigit(n % 16)]
  }

  /** The escape `\uXXXX` of a 16-bit code. */
  function UnicodeEscape(n: nat): (e: string)
    requires n < 0x1_0000
    ensures |e| == 6 && Printable(e)
  {
    var h := Hex4(n);
    assert forall i :: 2 <= i < 6 ==> ("\\u" + h)[i] == h[i - 2];
    "\\u" + h
  }

  /** A character that `json.dump` writes as it is: printable ASCII other than `"` and `\`. */
  predicate JsonPlain(c: char) {
    ' ' <= c <= '~' && c != '"' && c != '\\'
  }

  /**
   * How `json.dump` (with its default `ensure_ascii`) writes one character
   * of a string: the short escapes, `\u` with four hex digits for the
   * other control characters and everything beyond ASCII, and a surrogate
   * pair beyond the 16-bit range.
   */
  function EscapeChar(c: char): (r: string)
    ensures |r| >= 1
    ensures r == [c] <==> JsonPlain(c)
    ensures Printable(r)
  {
    if c == '"' then "\\\""
    else if c == '\\' then "\\\\"
    else if c == '\n' then "\\n"
    else if c == '\r' then "\\r"
    else if c == '\t' then "\\t"
    else if c == 8 as char then "\\b"
    else if c == 12 as char then "\\f"
    else if ' ' <= c <= '~' then [c]
    else if c as int < 0x1_0000 then UnicodeEscape(c as int)
    else
      var v := c as int - 0x1_0000;
      var high, low := UnicodeEscape(0xD800 + v / 0x400), UnicodeEscape(0xDC00 + v % 0x400);
      assert forall i :: 6 <= i < 12 ==> (high + low)[i] == low[i - 6];
      high + low
  }

  /** The characters of a string as `json.dump` writes them between the quotes. */
  function Escape(s: string): (r: string)
    ensures |r| >= |s|
    ensures Printable(r)
    decreases |s|
  {
    if |s| == 0 then "" else EscapeChar(s[0]) + Escape(s[1..])
  }

  /** `save_progress`: `json.dump({"last_video_id": id})`. */
  function SaveText(id: string): (text: string)
    ensures |text| >= |id| + 21 && text[0] == '{' && text[|text| - 1] == '}'
    ensures Printable(text)
  {
    "{\"last_video_id\": \"" + Escape(id) + "\"}"
  }

  /** The characters of a YouTube video id: ASCII letters, digits, `-` and `_`. */
  predicate IsVideoIdChar(c: char) {
    'a' <= c <= 'z' || 'A' <= c <= 'Z' || '0' <= c <= '9' || c == '-' || c == '_'
  }

  predicate IsVideoId(id: string) {
    forall i :: 0 <= i < |id| ==> IsVideoIdChar(id[i])
  }

  /** A string of plain characters is written as it is. */
  lemma {:induction false} EscapePlain(s: string)
    requires forall i :: 0 <= i < |s| ==> JsonPlain(s[i])
    ensures Escape(s) == s
    decreases |s|
  {
    if |s| > 0 {
      EscapePlain(s[1..]);
      assert s == [s[0]] + s[1..];
    }
  }

  /** A video id needs no escape: the saved text holds it verbatim between the quotes. */
  lemma SavedVideoId(id: string)
    requires IsVideoId(id)
    ensures SaveText(id) == "{\"last_video_id\": \"" + id + "\"}"
  {
    EscapePlain(id);
  }

  /**
   * A saved cursor is loaded back, and the file kept, given a JSON parser
   * that reads `SaveText(id)` as holding `id`.
   */
  lemma SaveThenLoad(id: string, parse: string -> Option<Option<string>>)
    requires parse(SaveText(id)) == Some(Some(id))
    ensures LoadProgress(Present(SaveText(id)), parse) == Loaded(Some(id), false)
  {
    StripUnchanged(SaveText(id));
  }

  /** A file holding only whitespace is no cursor, and is removed, whatever the parser says. */
  lemma BlankFileIsNoProgress(text: string, parse: string -> Option<Option<string>>)
    requires forall i :: 0 <= i < |text| ==> text[i] in Whitespace
    ensures LoadProgress(Present(text), parse) == Loaded(None, true)
  {
    StripBlank(text);
  }
}
