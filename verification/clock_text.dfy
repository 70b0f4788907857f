/** Reading clock texts such as "1h2m3s", "2m3s" or "3s" back as a number
    of seconds: the reference the duration printers of recorder.js and
    webm-duration-fix.js are checked against. Units below the largest one
    printed must be canonical: minutes and seconds from 0 to 59. */
module ClockText {
  import opened Wrappers
  import opened Text

  /** Reads a clock text "<h>h<m>m<s>s", "<m>m<s>s" or "<s>s" as a number
      of seconds. */
  function ReadTime(t: string): Option<int>
  {
    if t == [] || t[|t| - 1] != 's' then None
    else ReadHours(t[..|t| - 1])
  }

  /** Reads "<h>h<m>m<s>", "<m>m<s>" or "<s>" as a number of seconds. */
  function ReadHours(body: string): Option<int>
  {
    match FirstIndex(body, 'h')
    case None => ReadMinutes(body)
    case Some(i) =>
      match (ReadInt(body[..i]), ReadMinutes(body[i + 1..]))
      case (Some(h), Some(rest)) =>
        if 0 <= rest < 3600 then Some(h * 3600 + rest) else None
      case _ => None
  }

  /** Reads "<m>m<s>" or "<s>" as a number of seconds. */
  function ReadMinutes(body: string): Option<int>
  {
    match FirstIndex(body, 'm')
    case None => ReadInt(body)
    case Some(j) =>
      match (ReadInt(body[..j]), ReadInt(body[j + 1..]))
      case (Some(m), Some(s)) =>
        if 0 <= s < 60 then Some(m * 60 + s) else None
      case _ => None
  }

  /** Minutes and seconds read back. */
  lemma ReadMinutesSplit(b: string, c: string, m: int, sec: int)
    requires Lacks(b, 'm') && ReadInt(b) == Some(m) && ReadInt(c) == Some(sec) && 0 <= sec < 60
    ensures ReadMinutes(b + "m" + c) == Some(m * 60 + sec)
  {
    var body := b + "m" + c;
    assert body == b + ['m'] + c;
    FirstIndexSplit(b, 'm', c);
    assert body[..|b|] == b;
    assert body[|b| + 1..] == c;
    assert ReadInt(body[..|b|]) == Some(m);
    assert ReadInt(body[|b| + 1..]) == Some(sec);
  }

  /** Hours before the rest of a clock text read back. */
  lemma ReadHoursSplit(a: string, rest: string, h: int, v: int)
    requires Lacks(a, 'h') && ReadInt(a) == Some(h) && ReadMinutes(rest) == Some(v) && 0 <= v < 3600
    ensures ReadHours(a + "h" + rest) == Some(h * 3600 + v)
  {
    var body := a + "h" + rest;
    assert body == a + ['h'] + rest;
    FirstIndexSplit(a, 'h', rest);
    assert body[..|a|] == a;
    assert body[|a| + 1..] == rest;
    assert ReadInt(body[..|a|]) == Some(h);
    assert ReadMinutes(body[|a| + 1..]) == Some(v);
  }

  /** The three digit groups of a clock text with hours. */
  lemma ReadHms(a: string, b: string, c: string, h: int, m: int, sec: int)
    requires Lacks(a, 'h') && Lacks(b, 'm')
    requires ReadInt(a) == Some(h) && ReadInt(b) == Some(m) && ReadInt(c) == Some(sec)
    requires 0 <= m < 60 && 0 <= sec < 60
    ensures ReadTime(a + "h" + b + "m" + c + "s") == Some(h * 3600 + m * 60 + sec)
  {
    var rest := b + "m" + c;
    ReadMinutesSplit(b, c, m, sec);
    ReadHoursSplit(a, rest, h, m * 60 + sec);
    ReadTimeOf(a + "h" + rest);
    HmsGrouping(a, b, c);
  }

  /** A clock text is its body and the final "s". */
  lemma ReadTimeOf(body: string)
    ensures ReadTime(body + "s") == ReadHours(body)
  {
    var t := body + "s";
    assert t[..|t| - 1] == body;
  }

  /** The grouping the clock readers split at. */
  lemma HmsGrouping(a: string, b: string, c: string)
    ensures a + "h" + b + "m" + c + "s" == (a + "h" + (b + "m" + c)) + "s"
  {
  }

  /** The two digit groups of a clock text without hours. */
  lemma ReadMs(b: string, c: string, m: int, sec: int)
    requires Lacks(b, 'h') && Lacks(c, 'h') && Lacks(b, 'm')
    requires ReadInt(b) == Some(m) && ReadInt(c) == Some(sec) && 0 <= sec < 60
    ensures ReadTime(b + "m" + c + "s") == Some(m * 60 + sec)
  {
    var t := b + "m" + c + "s";
    var body := b + "m" + c;
    assert t[..|t| - 1] == body;
    LacksAppend(b, "m", 'h');
    LacksAppend(b + "m", c, 'h');
    ReadMinutesSplit(b, c, m, sec);
  }

  /** The single digit group of a clock text with seconds only. */
  lemma ReadS(c: string)
    requires Lacks(c, 'h') && Lacks(c, 'm') && ReadInt(c).Some?
    ensures ReadTime(c + "s") == ReadInt(c)
  {
    var t := c + "s";
    assert t[..|t| - 1] == c;
  }
}
