/** The file-name helpers of recorder.js: the recording's length as
    minutes and seconds, and the default name of a recording built from
    the moment it was made (the `toISOString()` text of the current date,
    which is a parameter here) and its length. */
module Recorder {
  import opened Wrappers
  import opened Text
  import opened ClockText

  // ---------------------------------------------------------------------
  // formatDuration
  // ---------------------------------------------------------------------

  /** Whole minutes (floored) and JavaScript's `%` of the whole seconds. */
  datatype Clock = Clock(minutes: int, seconds: int)

  /** The minutes and remaining seconds of `ms` milliseconds. */
  function Split(ms: int): (c: Clock)
    ensures ms >= 0 ==> 0 <= c.seconds < 60 && 0 <= c.minutes
    ensures ms >= 0 ==> c.minutes * 60 + c.seconds == ms / 1000
    ensures 0 <= ms < 60000 ==> c.minutes == 0
    ensures ms >= 60000 ==> c.minutes >= 1
  {
    var seconds := ms / 1000;
    Clock(seconds / 60, JsRem(seconds, 60))
  }

  /** `${minutes}m${remainingSeconds}s`. */
  function FormatDuration(ms: int): (r: string)
    ensures 4 <= |r| && r[|r| - 1] == 's'
  {
    var c := Split(ms);
    IntText(c.minutes) + "m" + IntText(c.seconds) + "s"
  }

  /** The printed length reads back as the recording's whole seconds for
      every duration a recording can have. */
  lemma FormatDurationRoundTrip(ms: int)
    requires ms >= 0
    ensures ReadTime(FormatDuration(ms)) == Some(ms / 1000)
  {
    var c := Split(ms);
    ReadIntText(c.minutes);
    ReadIntText(c.seconds);
    IntTextLacks(c.minutes, 'h');
    IntTextLacks(c.minutes, 'm');
    IntTextLacks(c.seconds, 'h');
    ReadMs(IntText(c.minutes), IntText(c.seconds), c.minutes, c.seconds);
  }

  /** For a negative length the floored minutes and the truncated seconds
      disagree: one millisecond before zero prints as minus one minute and
      minus one second, which no clock reading accepts. */
  lemma FormatDurationNegative()
    ensures FormatDuration(-1) == "-1m-1s"
    ensures ReadTime(FormatDuration(-1)) == None
  {
    assert Split(-1) == Clock(-1, -1);
    assert NatText(1) == "1";
    var t := FormatDuration(-1);
    var body := t[..|t| - 1];
    assert body == "-1m-1";
    assert FirstIndex(body, 'h') == None;
    assert body == "-1" + ['m'] + "-1";
    FirstIndexSplit("-1", 'm', "-1");
    assert body[..2] == "-1" && body[3..] == "-1";
  }

  /** The printed length holds no underscore. */
  lemma FormatDurationLacksUnderscore(ms: int)
    ensures Lacks(FormatDuration(ms), '_')
  {
    var c := Split(ms);
    IntTextLacks(c.minutes, '_');
    IntTextLacks(c.seconds, '_');
    LacksAppend(IntText(c.minutes), "m", '_');
    LacksAppend(IntText(c.seconds), "s", '_');
    LacksAppend(IntText(c.minutes) + "m", IntText(c.seconds) + "s", '_');
  }

  // ---------------------------------------------------------------------
  // The timestamp
  // ---------------------------------------------------------------------

  /** What `/[:.]/g` replaces a character with. */
  function Dash(c: char): char
  {
    if c == ':' || c == '.' then '-' else c
  }

  /** `s.replace(/[:.]/g, '-')`: every colon and dot becomes a dash. */
  function ReplaceSeparators(s: string): (r: string)
    ensures |r| == |s|
    ensures forall i :: 0 <= i < |s| ==> r[i] == Dash(s[i])
    ensures Lacks(r, ':') && Lacks(r, '.')
    decreases |s|
  {
    if s == [] then []
    else ReplaceSeparators(s[..|s| - 1]) + [Dash(s[|s| - 1])]
  }

  /** `.replace(/[:.]/g, '-').slice(0, -5)`: the separators become dashes
      and the last five characters (the milliseconds and the zone letter of
      an ISO text) are cut; a shorter text becomes empty. */
  function Timestamp(iso: string): (r: string)
    ensures |iso| >= 5 ==> |r| == |iso| - 5
    ensures |iso| < 5 ==> r == []
    ensures forall i :: 0 <= i < |r| ==> r[i] == Dash(iso[i])
  {
    var t := ReplaceSeparators(iso);
    t[..if |t| >= 5 then |t| - 5 else 0]
  }

  /** The text `Date.prototype.toISOString` gives for a four-digit year:
      `YYYY-MM-DDTHH:mm:ss.sssZ`. */
  predicate IsoText(s: string)
  {
    && |s| == 24
    && s[4] == '-' && s[7] == '-' && s[10] == 'T'
    && s[13] == ':' && s[16] == ':' && s[19] == '.' && s[23] == 'Z'
    && forall i :: 0 <= i < 24 && i !in {4, 7, 10, 13, 16, 19, 23} ==> IsDigit(s[i])
  }

  /** Of an ISO text the timestamp keeps the date and the time to the
      second, the colons turned into dashes. */
  lemma TimestampOfIso(iso: string)
    requires IsoText(iso)
    ensures Timestamp(iso) == iso[..13] + "-" + iso[14..16] + "-" + iso[17..19]
  {
    var r := Timestamp(iso);
    var e := iso[..13] + "-" + iso[14..16] + "-" + iso[17..19];
    assert |r| == 19 == |e|;
    forall i | 0 <= i < 19 ensures r[i] == e[i] {
      assert r[i] == Dash(iso[i]);
    }
  }

  // ---------------------------------------------------------------------
  // generateFilename
  // ---------------------------------------------------------------------

  const Prefix: string := "screen-recording_"

  /** `screen-recording_${timestamp}_${durationStr}.webm`. */
  function GenerateFilename(iso: string, ms: int): (r: string)
    ensures EndsWith(r, ".webm")
    ensures |r| > |Prefix| && r[..|Prefix|] == Prefix
  {
    var r := Prefix + (Timestamp(iso) + "_" + FormatDuration(ms)) + ".webm";
    assert r[..|Prefix|] == Prefix;
    r
  }

  /** Splits a recording's default name into its timestamp and the whole
      seconds its length text shows. */
  function ReadRecordingName(name: string): Option<(string, int)>
  {
    if |name| < |Prefix| + 5 || name[..|Prefix|] != Prefix || !EndsWith(name, ".webm") then None
    else ReadStamped(name[|Prefix|..|name| - 5])
  }

  /** Splits "<timestamp>_<length>" at its last underscore. */
  function ReadStamped(middle: string): Option<(string, int)>
  {
    var k :- LastIndex(middle, '_');
    var seconds :- ReadTime(middle[k + 1..]);
    Some((middle[..k], seconds))
  }

  /** The prefix and the extension come off a default name whole. */
  lemma ReadRecordingNameFrame(middle: string)
    ensures ReadRecordingName(Prefix + middle + ".webm") == ReadStamped(middle)
  {
    var name := Prefix + middle + ".webm";
    assert name[..|Prefix|] == Prefix;
    assert name[|name| - 5..] == ".webm";
    assert name[|Prefix|..|name| - 5] == middle;
  }

  /** The length text, which holds no underscore, comes off after the
      last underscore. */
  lemma ReadStampedSplit(ts: string, d: string, seconds: int)
    requires Lacks(d, '_') && ReadTime(d) == Some(seconds)
    ensures ReadStamped(ts + "_" + d) == Some((ts, seconds))
  {
    var middle := ts + "_" + d;
    assert middle == ts + ['_'] + d;
    LastIndexSplit(ts, '_', d);
    assert middle[..|ts|] == ts && middle[|ts| + 1..] == d;
  }

  /** A recording's default name gives back its timestamp and its length in
      whole seconds. */
  lemma GenerateFilenameRoundTrip(iso: string, ms: int)
    requires ms >= 0
    ensures ReadRecordingName(GenerateFilename(iso, ms)) == Some((Timestamp(iso), ms / 1000))
  {
    var ts := Timestamp(iso);
    var d := FormatDuration(ms);
    FormatDurationLacksUnderscore(ms);
    FormatDurationRoundTrip(ms);
    ReadStampedSplit(ts, d, ms / 1000);
    assert GenerateFilename(iso, ms) == Prefix + (ts + "_" + d) + ".webm";
    ReadRecordingNameFrame(ts + "_" + d);
  }
}
