/** What `SageERP.reformat_datetime` computes, as a function: the driver's
    timestamp text in, the display text `MM/DD/YYYY HH:MM AM|PM` or `''` out. */
module DatetimeFormat {
  import opened Wrappers
  import opened Text
  import opened DateTimes

  /** `.000000` appended when the text holds no `.`. */
  function DefaultFraction(t: string): (r: string)
    ensures '.' in r
    ensures forall x :: x != '.' && x != '0' ==> (x in r <==> x in t)
  {
    if '.' in t then t else t + ".000000"
  }

  /** The text handed to `strptime`: every `T` becomes a space, every `Z` is
      dropped, and `.000000` is appended when no `.` is left. */
  function Normalize(dt: string): (t: string)
    ensures 'T' !in t && 'Z' !in t && '.' in t
  {
    DefaultFraction(RemoveChar(ReplaceChar(dt, 'T', ' '), 'Z'))
  }

  /** The display text, or `''` when the text does not parse (or there is none). */
  function Reformat(dt: Option<string>): string
  {
    match dt
    case None => ""
    case Some(s) =>
      match ParseWithFraction(Normalize(s))
      case None => ""
      case Some(d) => Display(d)
  }

  /** Parsing the display text back succeeds exactly when it is not empty, and then
      gives the parsed timestamp truncated to the minute. */
  lemma ReformatReparses(s: string)
    ensures ParseDisplay(Reformat(Some(s))).Some? <==> Reformat(Some(s)) != ""
    ensures ParseDisplay(Reformat(Some(s))).Some? ==>
      && ParseWithFraction(Normalize(s)).Some?
      && ParseDisplay(Reformat(Some(s))).value == ToMinute(ParseWithFraction(Normalize(s)).value)
  {
    match ParseWithFraction(Normalize(s))
    case None =>
      assert Reformat(Some(s)) == "";
    case Some(d) =>
      DisplayRoundTrip(d);
  }

  /** A non-empty result of `reformat_datetime` comes only from a text that the
      clean-up turned into a clock text with a one-to-six-digit fraction, and it
      is the display text of that timestamp. */
  lemma ReformatText(s: string)
    ensures Reformat(Some(s)) != "" ==>
      var t := Normalize(s);
      && ParseWithFraction(t).Some?
      && 21 <= |t| <= 26 && AllDigits(t[20..])
      && t == ClockText(ParseWithFraction(t).value, ' ') + "." + t[20..]
      && Reformat(Some(s)) == Display(ParseWithFraction(t).value)
  {
    ParseWithFractionText(Normalize(s));
  }

  /** `YYYY-MM-DD`. */
  function DateText(d: DateTime): string
    requires Valid(d)
  {
    Pad4(d.year) + "-" + Pad2(d.month) + "-" + Pad2(d.day)
  }

  /** `HH:MM:SS`. */
  function TimeText(d: DateTime): string
    requires Valid(d)
  {
    Pad2(d.hour) + ":" + Pad2(d.minute) + ":" + Pad2(d.second)
  }

  /** The first nineteen characters of an ISO timestamp, with `sep` between date and time. */
  function ClockText(d: DateTime, sep: char): string
    requires Valid(d)
  {
    DateText(d) + [sep] + TimeText(d)
  }

  /** An ISO timestamp as the driver or a client writes it:
      `YYYY-MM-DD`, `T` or a space, `HH:MM:SS`, an optional fraction, an optional `Z`. */
  function IsoText(d: DateTime, sep: char, fraction: string, zulu: bool): string
    requires Valid(d)
  {
    ClockText(d, sep) + FractionText(fraction) + ZoneText(zulu)
  }

  /** Neither a `.` nor a `T` nor a `Z` among digits and the separators `-`, `:`. */
  predicate Plain(s: string)
  {
    forall k :: 0 <= k < |s| ==> IsDigit(s[k]) || s[k] == '-' || s[k] == ':' || s[k] == ' '
  }

  lemma PlainExcludes(s: string)
    requires Plain(s)
    ensures '.' !in s && 'T' !in s && 'Z' !in s
  {
  }

  lemma DateTextLayout(d: DateTime)
    requires Valid(d)
    ensures var t := DateText(d);
      && |t| == 10 && Plain(t) && t[4] == '-' && t[7] == '-'
      && t[0..4] == Pad4(d.year) && t[5..7] == Pad2(d.month) && t[8..10] == Pad2(d.day)
  {
    var y, mo, da := Pad4(d.year), Pad2(d.month), Pad2(d.day);
    var t := DateText(d);
    assert t == (y + "-") + (mo + "-" + da);
    assert t[0..4] == y;
    assert t[5..] == mo + "-" + da;
    assert t[5..7] == mo;
    assert t[8..10] == da;
  }

  lemma TimeTextLayout(d: DateTime)
    requires Valid(d)
    ensures var t := TimeText(d);
      && |t| == 8 && Plain(t) && t[2] == ':' && t[5] == ':'
      && t[0..2] == Pad2(d.hour) && t[3..5] == Pad2(d.minute) && t[6..8] == Pad2(d.second)
  {
    var h, mi, se := Pad2(d.hour), Pad2(d.minute), Pad2(d.second);
    var t := TimeText(d);
    assert t == (h + ":") + (mi + ":" + se);
    assert t[0..2] == h;
    assert t[3..] == mi + ":" + se;
    assert t[3..5] == mi;
    assert t[6..8] == se;
  }

  lemma ClockTextLayout(d: DateTime)
    requires Valid(d)
    ensures var t := ClockText(d, ' ');
      && |t| == 19 && Plain(t)
      && t[4] == '-' && t[7] == '-' && t[10] == ' ' && t[13] == ':' && t[16] == ':'
      && t[0..4] == Pad4(d.year) && t[5..7] == Pad2(d.month) && t[8..10] == Pad2(d.day)
      && t[11..13] == Pad2(d.hour) && t[14..16] == Pad2(d.minute) && t[17..19] == Pad2(d.second)
  {
    DateTextLayout(d);
    TimeTextLayout(d);
    var a, b := DateText(d), TimeText(d);
    var t := ClockText(d, ' ');
    assert t[..10] == a;
    assert t[11..] == b;
    assert t[0..4] == a[0..4];
    assert t[5..7] == a[5..7];
    assert t[8..10] == a[8..10];
    assert t[11..13] == b[0..2];
    assert t[14..16] == b[3..5];
    assert t[17..19] == b[6..8];
  }

  lemma ParseClockText(d: DateTime)
    requires Valid(d)
    ensures ParseSeconds(ClockText(d, ' ')) == Some(d.(micro := 0))
  {
    ClockTextLayout(d);
  }

  /** The seconds-only format accepts only the clock text of what it returns:
      four-digit year, two-digit fields, `-`, ` ` and `:` in their places. */
  lemma ParseSecondsText(t: string)
    ensures ParseSeconds(t).Some? ==> t == ClockText(ParseSeconds(t).value, ' ')
  {
    if ParseSeconds(t).Some? {
      var d := ParseSeconds(t).value;
      var c := ClockText(d, ' ');
      ClockTextLayout(d);
      Pad4Value(t[0..4]);
      Pad2Value(t[5..7]);
      Pad2Value(t[8..10]);
      Pad2Value(t[11..13]);
      Pad2Value(t[14..16]);
      Pad2Value(t[17..19]);
      forall k | 0 <= k < 19 ensures t[k] == c[k] {
        if k < 4 {
          assert t[0..4][k] == t[k] && c[0..4][k] == c[k];
        } else if 4 < k < 7 {
          assert t[5..7][k - 5] == t[k] && c[5..7][k - 5] == c[k];
        } else if 7 < k < 10 {
          assert t[8..10][k - 8] == t[k] && c[8..10][k - 8] == c[k];
        } else if 10 < k < 13 {
          assert t[11..13][k - 11] == t[k] && c[11..13][k - 11] == c[k];
        } else if 13 < k < 16 {
          assert t[14..16][k - 14] == t[k] && c[14..16][k - 14] == c[k];
        } else if 16 < k {
          assert t[17..19][k - 17] == t[k] && c[17..19][k - 17] == c[k];
        }
      }
    }
  }

  /** The fraction format accepts only a clock text, a `.` and one to six digits,
      and the microseconds are those digits padded on the right to six. */
  lemma ParseWithFractionText(t: string)
    ensures ParseWithFraction(t).Some? ==>
      && 21 <= |t| <= 26
      && AllDigits(t[20..]) && AllDigits(t[20..] + Zeros(6 - |t[20..]|))
      && t == ClockText(ParseWithFraction(t).value, ' ') + "." + t[20..]
      && ParseWithFraction(t).value.micro == Value(t[20..] + Zeros(6 - |t[20..]|))
  {
    if ParseWithFraction(t).Some? {
      var d := ParseWithFraction(t).value;
      ParseSecondsText(t[..19]);
      AllDigitsAppend(t[20..], Zeros(6 - |t[20..]|));
      assert ClockText(d, ' ') == ClockText(ParseSeconds(t[..19]).value, ' ');
      assert t == t[..19] + "." + t[20..];
    }
  }

  /** The fraction part `.digits`, or nothing. */
  function FractionText(fraction: string): string
  {
    if fraction == "" then "" else "." + fraction
  }

  lemma FractionTextPlain(fraction: string)
    requires AllDigits(fraction)
    ensures 'T' !in FractionText(fraction) && 'Z' !in FractionText(fraction)
    ensures '.' in FractionText(fraction) <==> fraction != ""
  {
    var f := FractionText(fraction);
    forall k | 0 <= k < |f| ensures f[k] != 'T' && f[k] != 'Z' {
      assert k > 0 ==> f[k] == fraction[k - 1];
    }
    if fraction != "" {
      assert f[0] == '.';
    }
  }

  function ZoneText(zulu: bool): string
  {
    if zulu then "Z" else ""
  }

  lemma ReplaceSeparator(a: string, sep: char, rest: string)
    requires 'T' !in a && 'T' !in rest && (sep == 'T' || sep == ' ')
    ensures ReplaceChar(a + [sep] + rest, 'T', ' ') == a + [' '] + rest
  {
    var s := a + [sep] + rest;
    forall k | 0 <= k < |s| ensures ReplaceChar(s, 'T', ' ')[k] == (a + [' '] + rest)[k] {
      if k < |a| {
        assert s[k] == a[k];
      } else if k > |a| {
        assert s[k] == rest[k - |a| - 1];
      }
    }
  }

  lemma ReplaceInParts(a: string, sep: char, b: string, f: string, z: string)
    requires 'T' !in a && 'T' !in b && 'T' !in f && 'T' !in z && (sep == 'T' || sep == ' ')
    ensures ReplaceChar(a + [sep] + b + f + z, 'T', ' ') == a + [' '] + b + f + z
  {
    var rest := b + f + z;
    assert a + [sep] + b + f + z == a + [sep] + rest;
    assert a + [' '] + b + f + z == a + [' '] + rest;
    ReplaceSeparator(a, sep, rest);
  }

  lemma ReplaceInIsoText(d: DateTime, sep: char, fraction: string, zulu: bool)
    requires Valid(d) && (sep == 'T' || sep == ' ') && AllDigits(fraction)
    ensures ReplaceChar(IsoText(d, sep, fraction, zulu), 'T', ' ')
            == ClockText(d, ' ') + FractionText(fraction) + ZoneText(zulu)
  {
    DateTextLayout(d);
    TimeTextLayout(d);
    PlainExcludes(DateText(d));
    PlainExcludes(TimeText(d));
    FractionTextPlain(fraction);
    ReplaceInParts(DateText(d), sep, TimeText(d), FractionText(fraction), ZoneText(zulu));
  }

  lemma RemoveZone(c: string, f: string, zulu: bool)
    requires 'Z' !in c && 'Z' !in f
    ensures RemoveChar(c + f + ZoneText(zulu), 'Z') == c + f
  {
    RemoveCharAppend(c + f, ZoneText(zulu), 'Z');
    RemoveCharAbsent(c + f, 'Z');
    assert RemoveChar(ZoneText(zulu), 'Z') == "";
  }

  /** The `T`/`Z` clean-up turns an ISO timestamp into the clock text with a space
      separator and the fraction, if any. */
  lemma CleanIsoText(d: DateTime, sep: char, fraction: string, zulu: bool)
    requires Valid(d) && (sep == 'T' || sep == ' ') && AllDigits(fraction)
    ensures RemoveChar(ReplaceChar(IsoText(d, sep, fraction, zulu), 'T', ' '), 'Z')
            == ClockText(d, ' ') + FractionText(fraction)
  {
    ReplaceInIsoText(d, sep, fraction, zulu);
    ClockTextLayout(d);
    PlainExcludes(ClockText(d, ' '));
    FractionTextPlain(fraction);
    RemoveZone(ClockText(d, ' '), FractionText(fraction), zulu);
  }

  lemma NormalizeCleaned(s: string, c: string, fraction: string)
    requires '.' !in c && AllDigits(fraction)
    requires RemoveChar(ReplaceChar(s, 'T', ' '), 'Z') == c + FractionText(fraction)
    ensures Normalize(s) == c + "." + (if fraction == "" then "000000" else fraction)
  {
    DefaultFractionOf(c, fraction);
  }

  lemma DefaultFractionOf(c: string, fraction: string)
    requires '.' !in c
    ensures DefaultFraction(c + FractionText(fraction))
            == c + "." + (if fraction == "" then "000000" else fraction)
  {
    if fraction != "" {
      var t := c + "." + fraction;
      assert t[|c|] == '.';
    } else {
      assert c + "" == c;
    }
  }

  /** After the clean-up the timestamp carries a fraction: its own or `.000000`. */
  lemma NormalizeIsoText(d: DateTime, sep: char, fraction: string, zulu: bool)
    requires Valid(d) && (sep == 'T' || sep == ' ') && AllDigits(fraction)
    ensures Normalize(IsoText(d, sep, fraction, zulu))
            == ClockText(d, ' ') + "." + (if fraction == "" then "000000" else fraction)
  {
    CleanIsoText(d, sep, fraction, zulu);
    ClockTextLayout(d);
    PlainExcludes(ClockText(d, ' '));
    NormalizeCleaned(IsoText(d, sep, fraction, zulu), ClockText(d, ' '), fraction);
  }

  lemma FractionTextSlices(c: string, digits: string)
    requires |c| == 19 && 1 <= |digits| <= 6
    ensures var t := c + "." + digits;
      21 <= |t| <= 26 && t[..19] == c && t[19] == '.' && t[20..] == digits
  {
    var t := c + "." + digits;
    assert t[..19] == c;
    assert t[20..] == digits;
  }

  lemma ParseFractionAt(t: string)
    requires 21 <= |t| <= 26 && t[19] == '.' && AllDigits(t[20..]) && ParseSeconds(t[..19]).Some?
    ensures AllDigits(t[20..] + Zeros(6 - |t[20..]|))
    ensures ParseWithFraction(t)
            == Some(ParseSeconds(t[..19]).value.(micro := Value(t[20..] + Zeros(6 - |t[20..]|))))
  {
    AllDigitsAppend(t[20..], Zeros(6 - |t[20..]|));
  }

  /** The fraction format on a clock text followed by `.` and one to six digits. */
  lemma ParseFractionOf(c: string, digits: string)
    requires |c| == 19 && ParseSeconds(c).Some?
    requires AllDigits(digits) && 1 <= |digits| <= 6
    ensures AllDigits(digits + Zeros(6 - |digits|))
    ensures ParseWithFraction(c + "." + digits)
            == Some(ParseSeconds(c).value.(micro := Value(digits + Zeros(6 - |digits|))))
  {
    var t := c + "." + digits;
    FractionTextSlices(c, digits);
    assert t[20..] == digits && t[..19] == c;
    ParseFractionAt(t);
    assert Zeros(6 - |t[20..]|) == Zeros(6 - |digits|);
  }

  /** An ISO timestamp of a valid date, with `T` or a space, with or without a
      fraction of up to six digits and with or without `Z`, parses to that
      timestamp: no fraction is zero microseconds, a fraction is padded on the
      right to six digits. */
  lemma ParseIsoText(d: DateTime, sep: char, fraction: string, zulu: bool)
    requires Valid(d) && (sep == 'T' || sep == ' ') && AllDigits(fraction) && |fraction| <= 6
    ensures fraction == "" ==>
      ParseWithFraction(Normalize(IsoText(d, sep, fraction, zulu))) == Some(d.(micro := 0))
    ensures fraction != "" ==>
      && AllDigits(fraction + Zeros(6 - |fraction|))
      && ParseWithFraction(Normalize(IsoText(d, sep, fraction, zulu)))
         == Some(d.(micro := Value(fraction + Zeros(6 - |fraction|))))
  {
    if fraction == "" {
      ParseIsoWithoutFraction(d, sep, zulu);
    } else {
      NormalizeIsoText(d, sep, fraction, zulu);
      ParseClockFraction(d, fraction);
    }
  }

  /** Zeros have the value zero. */
  lemma {:induction false} ValueZeros(n: nat)
    ensures Value(Zeros(n)) == 0
  {
    if n > 0 {
      assert Zeros(n)[..n - 1] == Zeros(n - 1);
      ValueZeros(n - 1);
    }
  }

  lemma ParseIsoWithoutFraction(d: DateTime, sep: char, zulu: bool)
    requires Valid(d) && (sep == 'T' || sep == ' ')
    ensures ParseWithFraction(Normalize(IsoText(d, sep, "", zulu))) == Some(d.(micro := 0))
  {
    var z := Zeros(6);
    assert Normalize(IsoText(d, sep, "", zulu)) == ClockText(d, ' ') + "." + z by {
      NormalizeIsoText(d, sep, "", zulu);
      assert z == "000000";
    }
    ParseClockFraction(d, z);
    assert z + Zeros(0) == z;
    ValueZeros(6);
  }

  /** The fraction format on the clock text of `d` followed by `.` and one to six digits. */
  lemma ParseClockFraction(d: DateTime, digits: string)
    requires Valid(d) && AllDigits(digits) && 1 <= |digits| <= 6
    ensures AllDigits(digits + Zeros(6 - |digits|))
    ensures ParseWithFraction(ClockText(d, ' ') + "." + digits)
            == Some(d.(micro := Value(digits + Zeros(6 - |digits|))))
  {
    ClockTextLayout(d);
    ParseClockText(d);
    ParseFractionOf(ClockText(d, ' '), digits);
  }

  /** So `reformat_datetime` maps every such timestamp to the display text of its
      date and minute; seconds and the fraction do not show. */
  lemma ReformatIsoText(d: DateTime, sep: char, fraction: string, zulu: bool)
    requires Valid(d) && (sep == 'T' || sep == ' ') && AllDigits(fraction) && |fraction| <= 6
    ensures Reformat(Some(IsoText(d, sep, fraction, zulu))) == Display(d)
  {
    ParseIsoText(d, sep, fraction, zulu);
  }
}
