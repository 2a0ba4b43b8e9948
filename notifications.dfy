/**
 * `src-tauri/src/notifications/windows.rs`: the `file:///` URI encoder for
 * the toast icon, the quote escaping of text spliced into single-quoted
 * PowerShell strings, and the chain of notification methods tried in turn.
 * Each method's effect (files, processes, the Tauri plugin) is abstracted as
 * its outcome.
 */
module Notifications {
  import opened Wrappers

  const UriPrefix := "file:///"
  const AllFailed := "All notification methods failed"

  // ---------------------------------------------------------------------------
  // `encode_uri`

  /** The characters `encode_uri` percent-encodes. */
  predicate IsReserved(c: char)
  {
    c in {' ', '!', '#', '$', '%', '&', '\'', '(', ')', '*', '+', ',', ':', ';', '=', '?', '@', '[', ']'}
  }

  function HexDigit(d: nat): char
    requires d < 16
  {
    if d < 10 then ('0' as int + d) as char else ('A' as int + d - 10) as char
  }

  /** The `%XX` code of a character below 128, upper-case hex. */
  function Escape(c: char): (r: string)
    requires (c as int) < 128
    ensures |r| == 3 && r[0] == '%'
  {
    ['%', HexDigit(c as int / 16), HexDigit(c as int % 16)]
  }

  /** One `match` arm: a reserved character becomes its code, any other is copied. */
  function EncodeChar(c: char): (r: string)
    ensures IsReserved(c) ==> r == Escape(c)
    ensures !IsReserved(c) ==> r == [c]
  {
    if IsReserved(c) then Escape(c) else [c]
  }

  /** The loop's output for a whole string. */
  function EncodeAll(s: string): string
  {
    if s == [] then "" else EncodeAll(s[..|s| - 1]) + EncodeChar(s[|s| - 1])
  }

  /** `path.replace("\\", "/")`. */
  function Normalize(path: string): (r: string)
    ensures |r| == |path|
    ensures forall i :: 0 <= i < |r| ==> r[i] == (if path[i] == '\\' then '/' else path[i])
  {
    seq(|path|, i requires 0 <= i < |path| => if path[i] == '\\' then '/' else path[i])
  }

  /** The closure `encode_uri`: normalise, then encode character by character. */
  method EncodeUri(path: string) returns (uri: string)
    ensures uri == UriPrefix + EncodeAll(Normalize(path))
  {
    var pathNormalized := Normalize(path);
    var encoded := "";
    for i := 0 to |pathNormalized|
      invariant encoded == EncodeAll(pathNormalized[..i])
    {
      assert pathNormalized[..i + 1][..i] == pathNormalized[..i];
      var ch := pathNormalized[i];
      if IsReserved(ch) {
        encoded := encoded + Escape(ch);
      } else {
        encoded := encoded + [ch];
      }
    }
    assert pathNormalized[..|pathNormalized|] == pathNormalized;
    uri := UriPrefix + encoded;
  }

  /** No backslash survives the encoding; the URI always has the `file:///` prefix. */
  lemma {:induction false} EncodedHasNoBackslash(s: string)
    requires forall i :: 0 <= i < |s| ==> s[i] != '\\'
    ensures forall i :: 0 <= i < |EncodeAll(s)| ==> EncodeAll(s)[i] != '\\'
  {
    if s != [] {
      EncodedHasNoBackslash(s[..|s| - 1]);
    }
  }

  lemma UriHasNoBackslash(path: string)
    ensures forall i :: 0 <= i < |UriPrefix + EncodeAll(Normalize(path))| ==> (UriPrefix + EncodeAll(Normalize(path)))[i] != '\\'
  {
    EncodedHasNoBackslash(Normalize(path));
  }

  // Percent-decoding, the partner of the encoder

  function HexValue(c: char): int
  {
    if '0' <= c <= '9' then c as int - '0' as int
    else if 'A' <= c <= 'F' then c as int - 'A' as int + 10
    else if 'a' <= c <= 'f' then c as int - 'a' as int + 10
    else -1
  }

  /** Standard percent-decoding: each `%XX` with two hex digits is the character with that code. */
  function PercentDecode(t: string): string
  {
    if t == [] then ""
    else if t[0] == '%' && |t| >= 3 && HexValue(t[1]) >= 0 && HexValue(t[2]) >= 0 then
      [(HexValue(t[1]) * 16 + HexValue(t[2])) as char] + PercentDecode(t[3..])
    else [t[0]] + PercentDecode(t[1..])
  }

  /** The encoding written from the front, to match the decoder. */
  lemma {:induction false} EncodeAllFront(s: string)
    requires s != []
    ensures EncodeAll(s) == EncodeChar(s[0]) + EncodeAll(s[1..])
  {
    if |s| > 1 {
      EncodeAllFront(s[..|s| - 1]);
      assert s[..|s| - 1][1..] == s[1..][..|s[1..]| - 1];
    } else {
      assert s[..|s| - 1] == [];
    }
  }

  lemma HexRoundTrip(d: nat)
    requires d < 16
    ensures HexValue(HexDigit(d)) == d
  {
  }

  /** A reserved character's code decodes back to it. */
  lemma DecodeEscape(c: char, rest: string)
    requires IsReserved(c)
    ensures PercentDecode(Escape(c) + rest) == [c] + PercentDecode(rest)
  {
    var e := Escape(c);
    var t := e + rest;
    HexRoundTrip(c as int / 16);
    HexRoundTrip(c as int % 16);
    assert t[0] == '%' && t[1] == e[1] && t[2] == e[2];
    assert t[3..] == rest;
    assert (HexValue(t[1]) * 16 + HexValue(t[2])) == c as int;
  }

  /** Any other character is read literally, since it is not '%'. */
  lemma DecodeLiteral(c: char, rest: string)
    requires !IsReserved(c)
    ensures PercentDecode([c] + rest) == [c] + PercentDecode(rest)
  {
    assert c != '%';
    assert ([c] + rest)[1..] == rest;
  }

  /**
   * Because '%' is itself encoded, decoding the encoding gives the input
   * back; so the encoder is injective and no two paths share a URI.
   */
  lemma {:induction false} DecodeEncode(s: string)
    ensures PercentDecode(EncodeAll(s)) == s
  {
    if s != [] {
      EncodeAllFront(s);
      DecodeEncode(s[1..]);
      if IsReserved(s[0]) {
        DecodeEscape(s[0], EncodeAll(s[1..]));
      } else {
        DecodeLiteral(s[0], EncodeAll(s[1..]));
      }
      assert s == [s[0]] + s[1..];
    }
  }

  lemma EncodeInjective(a: string, b: string)
    requires EncodeAll(a) == EncodeAll(b)
    ensures a == b
  {
    DecodeEncode(a);
    DecodeEncode(b);
  }

  /** The URI's body decodes to the normalised path. */
  lemma UriDecodesToNormalizedPath(path: string)
    ensures PercentDecode((UriPrefix + EncodeAll(Normalize(path)))[|UriPrefix|..]) == Normalize(path)
  {
    assert (UriPrefix + EncodeAll(Normalize(path)))[|UriPrefix|..] == EncodeAll(Normalize(path));
    DecodeEncode(Normalize(path));
  }

  // ---------------------------------------------------------------------------
  // PowerShell quoting

  /** `s.replace(from, to)` for a one-character pattern. */
  function ReplaceChar(s: string, from: char, to: string): string
  {
    if s == [] then "" else ReplaceChar(s[..|s| - 1], from, to) + (if s[|s| - 1] == from then to else [s[|s| - 1]])
  }

  /** `.replace("'", "''")`: what the XML path goes through. */
  function DoubleQuotes(s: string): string
  {
    ReplaceChar(s, '\'', "''")
  }

  /** The balloon title and body: quotes doubled, then line feeds and carriage returns to spaces. */
  function EscapeBalloon(s: string): string
  {
    ReplaceChar(ReplaceChar(DoubleQuotes(s), '\n', " "), '\r', " ")
  }

  /**
   * Every quote is the first of a doubled pair, so a single-quoted PowerShell
   * literal holding the text cannot be closed early.
   */
  predicate QuotesDoubled(t: string)
  {
    if t == [] then true
    else if t[0] == '\'' then |t| >= 2 && t[1] == '\'' && QuotesDoubled(t[2..])
    else QuotesDoubled(t[1..])
  }

  /** How PowerShell reads a single-quoted literal's content: each `''` is one quote. */
  function Undouble(t: string): string
  {
    if t == [] then ""
    else if t[0] == '\'' && |t| >= 2 && t[1] == '\'' then "'" + Undouble(t[2..])
    else [t[0]] + Undouble(t[1..])
  }

  lemma {:induction false} ReplaceCharAppend(a: string, b: string, from: char, to: string)
    ensures ReplaceChar(a + b, from, to) == ReplaceChar(a, from, to) + ReplaceChar(b, from, to)
    decreases |b|
  {
    if b == [] {
      assert a + b == a;
    } else {
      ReplaceCharAppend(a, b[..|b| - 1], from, to);
      assert (a + b)[..|a + b| - 1] == a + b[..|b| - 1];
    }
  }

  lemma ReplaceCharFront(s: string, from: char, to: string)
    requires s != []
    ensures ReplaceChar(s, from, to) == (if s[0] == from then to else [s[0]]) + ReplaceChar(s[1..], from, to)
  {
    ReplaceCharAppend([s[0]], s[1..], from, to);
    assert [s[0]] + s[1..] == s;
    assert ReplaceChar([s[0]], from, to) == ReplaceChar([], from, to) + (if s[0] == from then to else [s[0]]);
  }

  /** Doubled quotes are read back as the original text, and leave no lone quote. */
  lemma {:induction false} DoubleQuotesRoundTrip(s: string)
    ensures QuotesDoubled(DoubleQuotes(s))
    ensures Undouble(DoubleQuotes(s)) == s
  {
    if s != [] {
      ReplaceCharFront(s, '\'', "''");
      DoubleQuotesRoundTrip(s[1..]);
      var rest := DoubleQuotes(s[1..]);
      if s[0] == '\'' {
        assert ("''" + rest)[2..] == rest;
      } else {
        assert ([s[0]] + rest)[1..] == rest;
      }
      assert s == [s[0]] + s[1..];
    }
  }

  /** Replacing a character other than the quote by a space keeps the quotes doubled. */
  lemma {:induction false} ReplaceKeepsQuotesDoubled(t: string, from: char)
    requires from != '\'' && QuotesDoubled(t)
    ensures QuotesDoubled(ReplaceChar(t, from, " "))
  {
    if t != [] {
      ReplaceCharFront(t, from, " ");
      if t[0] == '\'' {
        ReplaceCharFront(t[1..], from, " ");
        ReplaceKeepsQuotesDoubled(t[2..], from);
        assert t[1..][1..] == t[2..];
        var rest := ReplaceChar(t[2..], from, " ");
        assert ReplaceChar(t, from, " ") == "''" + rest;
        assert ("''" + rest)[2..] == rest;
      } else {
        ReplaceKeepsQuotesDoubled(t[1..], from);
        var head := if t[0] == from then " " else [t[0]];
        assert (head + ReplaceChar(t[1..], from, " "))[1..] == ReplaceChar(t[1..], from, " ");
      }
    }
  }

  lemma {:induction false} ReplaceRemoves(t: string, from: char)
    requires from != ' '
    ensures forall i :: 0 <= i < |ReplaceChar(t, from, " ")| ==> ReplaceChar(t, from, " ")[i] != from
  {
    if t != [] {
      ReplaceRemoves(t[..|t| - 1], from);
    }
  }

  lemma {:induction false} ReplaceKeepsAbsent(t: string, from: char, c: char)
    requires c != ' ' && forall i :: 0 <= i < |t| ==> t[i] != c
    ensures forall i :: 0 <= i < |ReplaceChar(t, from, " ")| ==> ReplaceChar(t, from, " ")[i] != c
  {
    if t != [] {
      ReplaceKeepsAbsent(t[..|t| - 1], from, c);
    }
  }

  /** The balloon text has no line breaks left, and its quotes are all doubled. */
  lemma BalloonTextIsOneSafeLine(s: string)
    ensures forall i :: 0 <= i < |EscapeBalloon(s)| ==> EscapeBalloon(s)[i] != '\n' && EscapeBalloon(s)[i] != '\r'
    ensures QuotesDoubled(EscapeBalloon(s))
  {
    var d := DoubleQuotes(s);
    DoubleQuotesRoundTrip(s);
    ReplaceKeepsQuotesDoubled(d, '\n');
    ReplaceKeepsQuotesDoubled(ReplaceChar(d, '\n', " "), '\r');
    ReplaceRemoves(d, '\n');
    ReplaceKeepsAbsent(ReplaceChar(d, '\n', " "), '\r', '\n');
    ReplaceRemoves(ReplaceChar(d, '\n', " "), '\r');
  }

  // ---------------------------------------------------------------------------
  // The fallback chain

  /** How the toast attempt went: the XML file could not be written, PowerShell could not start, it failed, or it worked. */
  datatype ToastOutcome = XmlNotWritten | ToastSpawnFailed | ToastFailed | ToastShown

  /** How a PowerShell balloon attempt went. */
  datatype BalloonOutcome = BalloonSpawnFailed | BalloonFailed | BalloonShown

  datatype Channel = Toast | TauriApi | Balloon

  /**
   * `show_windows_notification` on Windows: the toast first; then the Tauri
   * notification, tried only with a non-empty icon path; then the balloon.
   * The first success ends the chain; `attempts` lists what was tried.
   */
  method ShowWindowsNotification(toast: ToastOutcome, iconPath: string, tauriShown: bool, balloon: BalloonOutcome)
    returns (r: Result<(), string>, attempts: seq<Channel>)
    ensures r.Ok? <==> toast == ToastShown || (iconPath != "" && tauriShown) || balloon == BalloonShown
    ensures r.Err? ==> r.error == AllFailed
    ensures toast == ToastShown ==> attempts == [Toast]
    ensures Toast in attempts <==> toast != XmlNotWritten
    ensures TauriApi in attempts <==> toast != ToastShown && iconPath != ""
    ensures Balloon in attempts <==> toast != ToastShown && !(iconPath != "" && tauriShown)
    ensures r.Err? ==> Balloon in attempts
  {
    attempts := [];
    if toast != XmlNotWritten {
      attempts := attempts + [Toast];
      if toast == ToastShown {
        return Ok(()), attempts;
      }
    }
    if iconPath != "" {
      attempts := attempts + [TauriApi];
      if tauriShown {
        return Ok(()), attempts;
      }
    }
    attempts := attempts + [Balloon];
    if balloon == BalloonShown {
      return Ok(()), attempts;
    }
    return Err(AllFailed), attempts;
  }

  /** The same function on every other platform: nothing is shown and it reports success. */
  function ShowNotificationElsewhere(title: string, body: string): (r: Result<(), string>)
    ensures r.Ok?
  {
    Ok(())
  }
}
