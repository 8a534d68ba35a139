/**
 * config/utils/convertors.py: the argument converters of the bot's commands.
 * `PacFileConverter` accepts an attachment whose first four bytes spell
 * "FPAC"; `AudioConverter` accepts a URL (with any YouTube playlist part cut
 * off) or an attachment whose content type mentions audio. Raising
 * `commands.BadArgument` is the `Rejected` outcome.
 */
module Convertors {
  import opened Binary
  import opened Text
  import opened PacLayout

  /** What a command receives: a string, or an attachment with its content
      type and the bytes `read()` returns. */
  datatype Argument = Str(s: string) | Attachment(contentType: string, data: seq<byte>)

  /** `commands.BadArgument(message)`, or the UnicodeDecodeError that
      `decode("ASCII")` raises on a byte above 127. */
  datatype ConvertError = BadArgument(message: string) | DecodeError

  datatype Outcome = Accepted(value: Argument) | Rejected(error: ConvertError)

  const InvalidFile: string := "An invalid file was passed."
  const BadStructure: string := ".pac File has an incorrect structure."
  const InvalidAudio: string := "An invalid url/file was passed for audio."

  // ---------------------------------------------------------------------
  // PacFileConverter.convert
  // ---------------------------------------------------------------------

  /** A non-attachment is refused; otherwise `read()[:4]` is decoded as ASCII
      and must equal "FPAC". */
  function PacConvert(argument: Argument): (r: Outcome) {
    if !argument.Attachment? then Rejected(BadArgument(InvalidFile))
    else
      var head := Slice(argument.data, 0, 4);
      if !AllAscii(head) then Rejected(DecodeError)
      else if AsciiDecode(head) != "FPAC" then Rejected(BadArgument(BadStructure))
      else Accepted(argument)
  }

  /** "FPAC" is the ASCII decoding of the archive magic. */
  lemma {:induction false} MagicDecodes()
    ensures AllAscii(Magic) && AsciiDecode(Magic) == "FPAC"
  {
    AllAsciiEach(Magic);
    AsciiDecodeAt(Magic);
  }

  /** Four ASCII bytes decode to "FPAC" exactly when they are the magic. */
  lemma {:induction false} DecodesToFpac(head: seq<byte>)
    requires AllAscii(head)
    ensures AsciiDecode(head) == "FPAC" <==> head == Magic
  {
    MagicDecodes();
    AsciiDecodeAt(head);
    if AsciiDecode(head) == "FPAC" {
      assert |head| == 4;
      forall i | 0 <= i < 4 ensures head[i] == Magic[i] {
        assert head[i] as int == AsciiDecode(head)[i] as int;
        assert Magic[i] as int == AsciiDecode(Magic)[i] as int;
      }
    }
  }

  /**
   * The converter accepts exactly the attachments that start with the magic,
   * returning them unchanged; everything else is refused.
   */
  lemma {:induction false} PacConvertAcceptsMagic(argument: Argument)
    ensures PacConvert(argument).Accepted? <==> argument.Attachment? && Slice(argument.data, 0, 4) == Magic
    ensures PacConvert(argument).Accepted? ==> PacConvert(argument).value == argument
  {
    if argument.Attachment? {
      var head := Slice(argument.data, 0, 4);
      MagicDecodes();
      if AllAscii(head) {
        DecodesToFpac(head);
      }
    }
  }

  /**
   * The converter and the archive parser apply the same magic check: a file
   * the converter refuses as badly structured is one FileHeader refuses with
   * BadMagic, one it cannot decode is refused with NotAscii, and a file it
   * accepts gets past the parser's magic check.
   */
  lemma {:induction false} PacConvertAgreesWithParse(contentType: string, data: seq<byte>)
    ensures (PacConvert(Attachment(contentType, data)) == Rejected(BadArgument(BadStructure)))
              <==> (Parse(data) == Err(BadMagic))
    ensures PacConvert(Attachment(contentType, data)) == Rejected(DecodeError) ==> Parse(data) == Err(NotAscii)
    ensures PacConvert(Attachment(contentType, data)).Accepted? ==> Slice(data, 0, 4) == Magic
  {
    var head := Slice(data, 0, 4);
    PacConvertAcceptsMagic(Attachment(contentType, data));
    ParseChecksMagic(data);
    if AllAscii(head) {
      DecodesToFpac(head);
    }
  }

  // ---------------------------------------------------------------------
  // AudioConverter.remove_playlist_if_exists
  // ---------------------------------------------------------------------

  /**
   * The argument cut before its first "list=" when it names YouTube and holds
   * a playlist parameter, or when it names the mobile site. The second test
   * pairs "m.youtu" with the bare literal "list=" rather than a membership
   * test, and a non-empty literal is always true, so the mobile-site test
   * alone decides that branch.
   */
  function RemovePlaylist(argument: string): (r: string) {
    if (Contains(argument, "youtu") && Contains(argument, "list=")) || Contains(argument, "m.youtu")
    then BeforeFirst(argument, "list=")
    else argument
  }

  /** The result is the same as cutting under the test "youtu" alone. The
      guard itself is narrower (it fails on "https://youtu.be/x"), but where
      "youtu" occurs and the guard fails there is no "list=" to cut before,
      and a string without "list=" is returned whole by the split. Every
      argument containing "m.youtu" also contains "youtu". */
  lemma {:induction false} RemovePlaylistGuard(argument: string)
    ensures RemovePlaylist(argument) == if Contains(argument, "youtu") then BeforeFirst(argument, "list=") else argument
  {
    if Contains(argument, "m.youtu") {
      ContainsPiece(argument, "m.youtu", 2, 5);
      assert "m.youtu"[2..7] == "youtu";
    }
  }

  /** Without "youtu" the argument comes back unchanged. */
  lemma {:induction false} RemovePlaylistNoYoutube(argument: string)
    requires !Contains(argument, "youtu")
    ensures RemovePlaylist(argument) == argument
  {
    RemovePlaylistGuard(argument);
  }

  /** The result is always a prefix of the argument. */
  lemma {:induction false} RemovePlaylistPrefix(argument: string)
    ensures |RemovePlaylist(argument)| <= |argument|
    ensures RemovePlaylist(argument) == argument[..|RemovePlaylist(argument)|]
  {
  }

  /** A YouTube URL with a playlist is cut just before its first "list=",
      and what is left holds no "list=". */
  lemma {:induction false} RemovePlaylistCuts(argument: string)
    requires Contains(argument, "youtu") && Contains(argument, "list=")
    ensures OccursAt("list=", argument, |RemovePlaylist(argument)|)
    ensures forall j :: 0 <= j < |RemovePlaylist(argument)| ==> !OccursAt("list=", argument, j)
    ensures !Contains(RemovePlaylist(argument), "list=")
  {
    assert Contains(argument, "list=");
  }

  /** Removing the playlist twice removes nothing more. */
  lemma {:induction false} RemovePlaylistIdempotent(argument: string)
    ensures RemovePlaylist(RemovePlaylist(argument)) == RemovePlaylist(argument)
  {
    var r := RemovePlaylist(argument);
    if r != argument {
      assert !Contains(r, "list=");
      RemovePlaylistGuard(r);
    }
  }

  // ---------------------------------------------------------------------
  // AudioConverter.convert
  // ---------------------------------------------------------------------

  /** One character the URL pattern accepts after the scheme: a letter, a
      digit, anything from '$' to '_', one of "@.&+" or one of "!*(),". The
      pattern's percent-escape alternative starts with '%', which already lies
      in the '$' to '_' range, so it accepts nothing more. */
  predicate UrlChar(c: char) {
    ('a' <= c <= 'z') || ('A' <= c <= 'Z') || ('0' <= c <= '9') || ('$' <= c <= '_')
    || c == '@' || c == '.' || c == '&' || c == '+'
    || c == '!' || c == '*' || c == '(' || c == ')' || c == ','
  }

  /** The pattern matches at i: "http://" or "https://", then at least one URL character. */
  predicate UrlAt(s: string, i: nat) {
    || (OccursAt("http://", s, i) && i + 7 < |s| && UrlChar(s[i + 7]))
    || (OccursAt("https://", s, i) && i + 8 < |s| && UrlChar(s[i + 8]))
  }

  /** `re.search` of the pattern from position i on, scanning left to right. */
  function UrlSearch(s: string, i: nat): (found: bool)
    decreases |s| - i
  {
    if i >= |s| then false
    else UrlAt(s, i) || UrlSearch(s, i + 1)
  }

  /** The search finds a match exactly when the pattern matches somewhere. */
  lemma {:induction false} UrlSearchFinds(s: string, i: nat)
    ensures UrlSearch(s, i) <==> exists j :: i <= j && UrlAt(s, j)
    decreases |s| - i
  {
    if i < |s| {
      UrlSearchFinds(s, i + 1);
      if UrlSearch(s, i + 1) {
        var j :| i + 1 <= j && UrlAt(s, j);
        assert i <= j;
      }
      if exists j :: i <= j && UrlAt(s, j) {
        var j :| i <= j && UrlAt(s, j);
        if j != i {
          assert i + 1 <= j;
        }
      }
    }
  }

  /**
   * A string is accepted when the URL pattern occurs in it, and comes back
   * with its playlist removed; an attachment is accepted unchanged when its
   * lower-cased content type contains "audio".
   */
  function AudioConvert(argument: Argument): (r: Outcome) {
    match argument
    case Str(s) =>
      if UrlSearch(s, 0) then Accepted(Str(RemovePlaylist(s))) else Rejected(BadArgument(InvalidAudio))
    case Attachment(contentType, _) =>
      if !Contains(Lower(contentType), "audio") then Rejected(BadArgument(InvalidAudio))
      else Accepted(argument)
  }

  /** What each kind of argument turns into. */
  lemma {:induction false} AudioConvertOutcome(argument: Argument)
    ensures argument.Str? ==>
      (AudioConvert(argument).Accepted? <==> exists j :: UrlAt(argument.s, j))
    ensures argument.Str? && AudioConvert(argument).Accepted? ==>
      AudioConvert(argument).value == Str(RemovePlaylist(argument.s))
    ensures argument.Attachment? ==>
      (AudioConvert(argument).Accepted? <==> Contains(Lower(argument.contentType), "audio"))
    ensures AudioConvert(argument).Accepted? && argument.Attachment? ==> AudioConvert(argument).value == argument
    ensures AudioConvert(argument).Rejected? ==> AudioConvert(argument).error == BadArgument(InvalidAudio)
  {
    if argument.Str? {
      UrlSearchFinds(argument.s, 0);
    }
  }
}
