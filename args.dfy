/** The `--format` command-line option. */
module Args {
  import opened Wrappers
  import opened Text
  import opened Format

  /** The codec name a format is chosen by on the command line, which is its codec's display text. */
  function CodecName(f: MediaFormat): string {
    match f
    case Audio(c) => AudioCodecText(c)
    case Video(c) => VideoCodecText(c)
  }

  /**
   * The format a name selects, compared after lower-casing: "mp3", "opus",
   * "m4a", "mp4" or "mkv", and MP3 audio for any other name.
   */
  function FormatForName(name: string): (f: MediaFormat)
    ensures f == Audio(Mp3) || AsciiLower(name) == CodecName(f)
  {
    var lower := AsciiLower(name);
    if lower == "mp3" then Audio(Mp3)
    else if lower == "opus" then Audio(Opus)
    else if lower == "m4a" then Audio(M4a)
    else if lower == "mp4" then Video(Mp4)
    else if lower == "mkv" then Video(Mkv)
    else Audio(Mp3)
  }

  /**
   * `Args::parse_format`: no format when the option is absent; a given
   * option always selects one, by `FormatForName`.
   */
  function ParseFormat(format: Option<string>): (r: Option<MediaFormat>)
    ensures r.None? <==> format.None?
    ensures format.Some? ==> r == Some(FormatForName(format.value))
  {
    match format
    case None => None
    case Some(name) => Some(FormatForName(name))
  }

  /** A codec's name selects exactly that format, in any ASCII letter case. */
  lemma ParseFormatRoundTrip(f: MediaFormat, name: string)
    requires EqIgnoreAsciiCase(name, CodecName(f))
    ensures ParseFormat(Some(name)) == Some(f)
  {
    var lower := AsciiLower(name);
    assert lower == CodecName(f) by {
      assert AsciiLower(CodecName(f)) == CodecName(f) by {
        match f
        case Audio(Mp3) =>
        case Audio(Opus) =>
        case Audio(M4a) =>
        case Video(Mp4) =>
        case Video(Mkv) =>
      }
    }
    CodecTextsDistinct();
    match f
    case Audio(Mp3) =>
    case Audio(Opus) => assert "mp3"[0] != "opus"[0];
    case Audio(M4a) => assert "mp3"[1] != "m4a"[1];
    case Video(Mp4) =>
    case Video(Mkv) =>
  }

  /** Any name that is not a codec's name selects MP3 audio. */
  lemma ParseFormatDefault(name: string)
    requires forall g :: AsciiLower(name) != CodecName(g)
    ensures ParseFormat(Some(name)) == Some(Audio(Mp3))
  {
  }

  /** Names that differ only in ASCII letter case select the same format. */
  lemma ParseFormatIgnoresCase(a: string, b: string)
    requires EqIgnoreAsciiCase(a, b)
    ensures ParseFormat(Some(a)) == ParseFormat(Some(b))
  {
  }
}
