/** Output formats: the audio and video codecs and how they are displayed and offered. */
module Format {

  datatype AudioCodec = Mp3 | Opus | M4a

  datatype VideoCodec = Mp4 | Mkv

  datatype MediaFormat = Audio(audio: AudioCodec) | Video(video: VideoCodec)

  /** `Display for AudioCodec`. */
  function AudioCodecText(c: AudioCodec): string {
    match c
    case Mp3 => "mp3"
    case Opus => "opus"
    case M4a => "m4a"
  }

  /** `Display for VideoCodec`. */
  function VideoCodecText(c: VideoCodec): string {
    match c
    case Mp4 => "mp4"
    case Mkv => "mkv"
  }

  /** `Display for MediaFormat`: the kind, a slash, then the codec's own text. */
  function FormatText(f: MediaFormat): string {
    match f
    case Audio(c) => "audio/" + AudioCodecText(c)
    case Video(c) => "video/" + VideoCodecText(c)
  }

  /** The five codec names are pairwise different, across both kinds. */
  lemma CodecTextsDistinct()
    ensures forall a, b :: AudioCodecText(a) == AudioCodecText(b) ==> a == b
    ensures forall a, b :: VideoCodecText(a) == VideoCodecText(b) ==> a == b
    ensures forall a, v :: AudioCodecText(a) != VideoCodecText(v)
  {
    assert "mp3"[1] != "m4a"[1];
    assert "mp3"[2] != "mp4"[2];
    assert "mp4"[1] != "mkv"[1];
    assert "m4a"[1] != "mkv"[1] && "m4a"[1] != "mp4"[1];
    assert "mp3"[1] != "mkv"[1];
  }

  /** Different formats never display alike. */
  lemma FormatTextInjective(f: MediaFormat, g: MediaFormat)
    ensures FormatText(f) == FormatText(g) ==> f == g
  {
    CodecTextsDistinct();
    if FormatText(f) == FormatText(g) {
      var p, q := FormatText(f), FormatText(g);
      assert p[..6] == q[..6];
      assert "audio/"[0] != "video/"[0];
      match f {
        case Audio(a) =>
          assert p[6..] == AudioCodecText(a);
          if g.Audio? { assert q[6..] == AudioCodecText(g.audio); }
        case Video(v) =>
          assert p[6..] == VideoCodecText(v);
          if g.Video? { assert q[6..] == VideoCodecText(g.video); }
      }
    }
  }

  function Formats(options: seq<(string, MediaFormat)>): (fs: seq<MediaFormat>)
    ensures |fs| == |options|
    ensures forall i :: 0 <= i < |options| ==> fs[i] == options[i].1
  {
    seq(|options|, i requires 0 <= i < |options| => options[i].1)
  }

  /**
   * `MediaFormat::all_options`: the menu of labelled formats. Five entries,
   * MP3 first, no format and no label listed twice (and, by
   * `EveryFormatOffered`, every format listed).
   */
  function AllOptions(): (options: seq<(string, MediaFormat)>)
    ensures |options| == 5
    ensures options[0].1 == Audio(Mp3)
    ensures forall i, j :: 0 <= i < j < |options| ==> options[i].1 != options[j].1
    ensures forall i, j :: 0 <= i < j < |options| ==> options[i].0 != options[j].0
  {
    var options := [
      ("Audio - MP3", Audio(Mp3)),
      ("Audio - Opus", Audio(Opus)),
      ("Audio - M4A", Audio(M4a)),
      ("Video - MP4", Video(Mp4)),
      ("Video - MKV", Video(Mkv))
    ];
    options
  }

  /** Every one of the five formats appears in the menu (exactly once, by `AllOptions`). */
  lemma EveryFormatOffered(f: MediaFormat)
    ensures f in Formats(AllOptions())
  {
    var fs := Formats(AllOptions());
    match f
    case Audio(Mp3) => assert fs[0] == f;
    case Audio(Opus) => assert fs[1] == f;
    case Audio(M4a) => assert fs[2] == f;
    case Video(Mp4) => assert fs[3] == f;
    case Video(Mkv) => assert fs[4] == f;
  }
}
