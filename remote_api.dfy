/**
 * The remote app's HTTP helpers, as the decisions they take: whether a
 * typed address is a dotted IPv4 address, what upload progress to report,
 * which message a failed upload shows, and how a health check and an upload
 * turn into results.
 *
 * The HTTP transport itself is not modelled: what the server or the network
 * answered is an input.
 */
module RemoteApi {
  import opened Common

  // ---------------------------------------------------------------------
  // Decimal digits

  /** JavaScript's `\d` without the `u` flag: an ASCII digit. */
  predicate IsDigit(c: char)
  {
    '0' <= c <= '9'
  }

  predicate AllDigits(s: string)
  {
    forall i :: 0 <= i < |s| ==> IsDigit(s[i])
  }

  /** `\d{1,3}`. */
  predicate IsDigitGroup(s: string)
  {
    1 <= |s| <= 3 && AllDigits(s)
  }

  function DigitValue(c: char): (d: nat)
    requires IsDigit(c)
    ensures d <= 9
  {
    (c as int - '0' as int) as nat
  }

  function DigitChar(d: nat): (c: char)
    requires d <= 9
    ensures IsDigit(c) && DigitValue(c) == d
  {
    ('0' as int + d) as char
  }

  /** 10 to the power n. */
  function Pow10(n: nat): (p: nat)
    ensures p >= 1
  {
    if n == 0 then 1 else 10 * Pow10(n - 1)
  }

  /** `parseInt(s, 10)` on a string of digits: leading zeros are read, not rejected. */
  function ParseDecimal(s: string): (v: nat)
    requires AllDigits(s)
    ensures v < Pow10(|s|)
  {
    if |s| == 0 then 0 else ParseDecimal(s[..|s| - 1]) * 10 + DigitValue(s[|s| - 1])
  }

  /** A number written in decimal, as a template literal does: no leading zeros. */
  function FormatDecimal(n: nat): (s: string)
    ensures |s| >= 1 && AllDigits(s)
    ensures |s| > 1 ==> s[0] != '0'
  {
    if n < 10 then [DigitChar(n)] else FormatDecimal(n / 10) + [DigitChar(n % 10)]
  }

  /** Reading back a written number gives the number. */
  lemma {:induction false} ParseFormat(n: nat)
    ensures ParseDecimal(FormatDecimal(n)) == n
  {
    if n >= 10 {
      ParseFormat(n / 10);
      var s := FormatDecimal(n);
      assert s[..|s| - 1] == FormatDecimal(n / 10);
    }
  }

  /** Numbers up to 255 take at most three digits. */
  lemma {:induction false} FormatByteLength(n: nat)
    requires n <= 255
    ensures |FormatDecimal(n)| <= 3
  {
    if n >= 10 {
      FormatShort(n / 10);
    }
  }

  lemma FormatShort(n: nat)
    requires n <= 25
    ensures |FormatDecimal(n)| <= 2
  {
  }

  /** Different numbers are written differently. */
  lemma FormatInjective(a: nat, b: nat)
    requires FormatDecimal(a) == FormatDecimal(b)
    ensures a == b
  {
    ParseFormat(a);
    ParseFormat(b);
  }

  // ---------------------------------------------------------------------
  // String.prototype.split and its inverse

  /** `s.split(sep)`: the pieces between separators, always at least one. */
  function Split(s: string, sep: char): (parts: seq<string>)
    ensures |parts| >= 1
    ensures forall i :: 0 <= i < |parts| ==> sep !in parts[i]
  {
    if |s| == 0 then [""]
    else if s[0] == sep then [""] + Split(s[1..], sep)
    else var rest := Split(s[1..], sep); [[s[0]] + rest[0]] + rest[1..]
  }

  /** `parts.join(sep)`. */
  function Join(parts: seq<string>, sep: char): string
    requires |parts| >= 1
  {
    if |parts| == 1 then parts[0] else parts[0] + [sep] + Join(parts[1..], sep)
  }

  /** Splitting and joining again gives back the string. */
  lemma {:induction false} JoinSplit(s: string, sep: char)
    ensures Join(Split(s, sep), sep) == s
  {
    if |s| > 0 {
      JoinSplit(s[1..], sep);
      var rest := Split(s[1..], sep);
      if s[0] == sep {
        assert Split(s, sep) == [""] + rest;
        assert Split(s, sep)[1..] == rest;
      } else {
        var parts := Split(s, sep);
        assert parts[0] == [s[0]] + rest[0];
        assert parts[1..] == rest[1..];
        if |rest| > 1 {
          assert rest == [rest[0]] + rest[1..];
          assert Join(rest, sep) == rest[0] + [sep] + Join(rest[1..], sep);
        }
      }
    }
  }

  /** Joining pieces free of the separator and splitting again gives back the pieces. */
  lemma {:induction false} SplitJoin(parts: seq<string>, sep: char)
    requires |parts| >= 1
    requires forall i :: 0 <= i < |parts| ==> sep !in parts[i]
    ensures Split(Join(parts, sep), sep) == parts
  {
    if |parts| == 1 {
      SplitPiece(parts[0], sep);
    } else {
      SplitJoin(parts[1..], sep);
      SplitPrefix(parts[0], Join(parts[1..], sep), sep);
      assert parts == [parts[0]] + parts[1..];
    }
  }

  /** A piece without the separator splits into itself. */
  lemma {:induction false} SplitPiece(p: string, sep: char)
    requires sep !in p
    ensures Split(p, sep) == [p]
  {
    if |p| > 0 {
      assert sep !in p[1..] by {
        forall i | 0 <= i < |p[1..]| ensures p[1..][i] != sep {
          assert p[1..][i] == p[i + 1];
        }
      }
      SplitPiece(p[1..], sep);
      assert [p[0]] + p[1..] == p;
    }
  }

  /** A separator-free piece followed by the separator becomes the first part. */
  lemma {:induction false} SplitPrefix(p: string, rest: string, sep: char)
    requires sep !in p
    ensures Split(p + [sep] + rest, sep) == [p] + Split(rest, sep)
  {
    var s := p + [sep] + rest;
    if |p| == 0 {
      assert s[0] == sep && s[1..] == rest;
    } else {
      assert sep !in p[1..] by {
        forall i | 0 <= i < |p[1..]| ensures p[1..][i] != sep {
          assert p[1..][i] == p[i + 1];
        }
      }
      SplitPrefix(p[1..], rest, sep);
      assert s[0] == p[0] && s[1..] == p[1..] + [sep] + rest;
      assert [p[0]] + p[1..] == p;
    }
  }

  // ---------------------------------------------------------------------
  // validateIP

  /** `/^(\d{1,3}\.){3}\d{1,3}$/.test(ip)`: four dot-separated groups of one to three digits. */
  predicate MatchesIpPattern(ip: string)
    ensures MatchesIpPattern(ip) ==> 7 <= |ip| <= 15
  {
    var parts := Split(ip, '.');
    JoinSplit(ip, '.');
    |parts| == 4 && (JoinFourLength(parts, '.'); forall i :: 0 <= i < 4 ==> IsDigitGroup(parts[i]))
  }

  /** Four pieces joined take their lengths plus three separators. */
  lemma JoinFourLength(parts: seq<string>, sep: char)
    requires |parts| == 4
    ensures |Join(parts, sep)| == |parts[0]| + |parts[1]| + |parts[2]| + |parts[3]| + 3
  {
    JoinFour(parts, sep);
  }

  /** Four pieces joined: each piece, then the separator, up to the last. */
  lemma JoinFour(parts: seq<string>, sep: char)
    requires |parts| == 4
    ensures Join(parts, sep) == parts[0] + [sep] + parts[1] + [sep] + parts[2] + [sep] + parts[3]
  {
    var tail := parts[2..];
    assert tail[1..] == [parts[3]];
    assert Join(tail, sep) == parts[2] + [sep] + parts[3];
    assert parts[1..][1..] == tail;
    assert Join(parts[1..], sep) == parts[1] + [sep] + Join(tail, sep);
  }

  /** The pattern matches exactly the strings made of four digit groups joined by dots. */
  lemma PatternMeaning(ip: string)
    ensures MatchesIpPattern(ip) <==>
      exists groups: seq<string> :: |groups| == 4 && (forall i :: 0 <= i < 4 ==> IsDigitGroup(groups[i]))
                                    && ip == Join(groups, '.')
  {
    if MatchesIpPattern(ip) {
      JoinSplit(ip, '.');
      var groups := Split(ip, '.');
      assert |groups| == 4 && ip == Join(groups, '.');
    }
    if exists groups: seq<string> :: |groups| == 4 && (forall i :: 0 <= i < 4 ==> IsDigitGroup(groups[i]))
                                     && ip == Join(groups, '.') {
      var groups: seq<string> :| |groups| == 4 && (forall i :: 0 <= i < 4 ==> IsDigitGroup(groups[i]))
                                && ip == Join(groups, '.');
      NoDotInGroups(groups);
      SplitJoin(groups, '.');
    }
  }

  lemma NoDotInGroups(groups: seq<string>)
    requires forall i :: 0 <= i < |groups| ==> IsDigitGroup(groups[i])
    ensures forall i :: 0 <= i < |groups| ==> '.' !in groups[i]
  {
    forall i, k | 0 <= i < |groups| && 0 <= k < |groups[i]|
      ensures groups[i][k] != '.'
    {
      assert IsDigit(groups[i][k]);
    }
  }

  /**
   * validateIP: the pattern must match, and then every group, read in
   * base 10, must lie in 0 .. 255.
   */
  predicate ValidateIp(ip: string)
    ensures ValidateIp(ip) ==> MatchesIpPattern(ip) && 7 <= |ip| <= 15
    ensures !MatchesIpPattern(ip) ==> !ValidateIp(ip)
  {
    MatchesIpPattern(ip) &&
    var parts := Split(ip, '.');
    forall i :: 0 <= i < 4 ==> 0 <= ParseDecimal(parts[i]) <= 255
  }

  /** An accepted address is four groups of one to three digits, each worth at most 255, joined by dots. */
  lemma ValidMeansFourOctets(ip: string)
    requires ValidateIp(ip)
    ensures var parts := Split(ip, '.');
      && |parts| == 4 && ip == Join(parts, '.')
      && forall i :: 0 <= i < 4 ==> IsDigitGroup(parts[i]) && ParseDecimal(parts[i]) <= 255
  {
    JoinSplit(ip, '.');
  }

  /** The dotted form of an address. */
  function DottedQuad(a: nat, b: nat, c: nat, d: nat): string
  {
    Join([FormatDecimal(a), FormatDecimal(b), FormatDecimal(c), FormatDecimal(d)], '.')
  }

  /** Every address written in the usual dotted form is accepted. */
  lemma DottedQuadAccepted(a: nat, b: nat, c: nat, d: nat)
    requires a <= 255 && b <= 255 && c <= 255 && d <= 255
    ensures ValidateIp(DottedQuad(a, b, c, d))
  {
    var groups := [FormatDecimal(a), FormatDecimal(b), FormatDecimal(c), FormatDecimal(d)];
    FormatByteLength(a); FormatByteLength(b); FormatByteLength(c); FormatByteLength(d);
    ParseFormat(a); ParseFormat(b); ParseFormat(c); ParseFormat(d);
    NoDotInGroups(groups);
    SplitJoin(groups, '.');
  }

  /** Four digit groups joined by dots are accepted exactly when each is worth at most 255. */
  lemma GroupsAcceptedIff(groups: seq<string>)
    requires |groups| == 4 && forall i :: 0 <= i < 4 ==> IsDigitGroup(groups[i])
    ensures MatchesIpPattern(Join(groups, '.'))
    ensures ValidateIp(Join(groups, '.')) <==>
      forall i :: 0 <= i < 4 ==> IsDigitGroup(groups[i]) && ParseDecimal(groups[i]) <= 255
  {
    NoDotInGroups(groups);
    SplitJoin(groups, '.');
  }

  /** A three-digit group in base 10. */
  lemma ParseThree(s: string)
    requires |s| == 3 && AllDigits(s)
    ensures ParseDecimal(s) == 100 * DigitValue(s[0]) + 10 * DigitValue(s[1]) + DigitValue(s[2])
  {
    assert s[..2][..1] == s[..1] && s[..1][..0] == [];
    assert ParseDecimal(s[..1]) == DigitValue(s[0]);
    assert ParseDecimal(s[..2]) == 10 * DigitValue(s[0]) + DigitValue(s[1]);
  }

  /** Groups with leading zeros pass the pattern and are read in base 10: "010.0.0.1" is accepted. */
  lemma LeadingZerosAccepted()
    ensures ValidateIp("010.0.0.1")
  {
    LeadingGroupsAccepted(["010", "0", "0", "1"]);
    LeadingDotted();
  }

  lemma LeadingDotted()
    ensures Join(["010", "0", "0", "1"], '.') == "010.0.0.1"
  {
    JoinFour(["010", "0", "0", "1"], '.');
  }

  lemma LeadingGroupsAccepted(groups: seq<string>)
    requires groups == ["010", "0", "0", "1"]
    ensures ValidateIp(Join(groups, '.'))
  {
    assert ParseDecimal("010") == 10 by {
      ParseThree("010");
    }
    assert ParseDecimal("0") == 0 && ParseDecimal("1") == 1;
    GroupsAcceptedIff(groups);
  }

  /** "192.168.1.100" is accepted. */
  lemma ValidateExampleAccepted()
    ensures ValidateIp("192.168.1.100")
  {
    HomeAccepted();
    HomeDotted();
  }

  lemma HomeDotted()
    ensures Join(["192", "168", "1", "100"], '.') == "192.168.1.100"
  {
    JoinFour(["192", "168", "1", "100"], '.');
  }

  lemma HomeAccepted()
    ensures ValidateIp(Join(["192", "168", "1", "100"], '.'))
  {
    HomeOctets();
    GroupsAcceptedIff(["192", "168", "1", "100"]);
  }

  lemma HomeOctets()
    ensures ParseDecimal("192") == 192 && ParseDecimal("168") == 168 && ParseDecimal("100") == 100
  {
    ParseThree("192");
    ParseThree("168");
    ParseThree("100");
  }

  /** "256.1.1.1" matches the pattern but is rejected: 256 is not an octet. */
  lemma ValidateExampleRejected()
    ensures MatchesIpPattern("256.1.1.1") && !ValidateIp("256.1.1.1")
  {
    HighGroupRejected();
    HighDotted();
  }

  lemma HighDotted()
    ensures Join(["256", "1", "1", "1"], '.') == "256.1.1.1"
  {
    JoinFour(["256", "1", "1", "1"], '.');
  }

  lemma HighGroupRejected()
    ensures var ip := Join(["256", "1", "1", "1"], '.');
      MatchesIpPattern(ip) && !ValidateIp(ip)
  {
    ParseThree("256");
    GroupsAcceptedIff(["256", "1", "1", "1"]);
  }

  /**
   * Three groups, five groups, or a four-digit group fail the pattern; the
   * first is too short to be an address.
   */
  lemma PatternRejects()
    ensures !MatchesIpPattern("1.2.3")
    ensures !MatchesIpPattern("1.2.3.4.5")
    ensures !MatchesIpPattern("1234.1.1.1")
  {
    FiveGroupsRejected();
    LongGroupRejected();
  }

  lemma FiveGroupsRejected()
    ensures !MatchesIpPattern("1.2.3.4.5")
  {
    var five := ["1", "2", "3", "4", "5"];
    assert Join(five, '.') == "1.2.3.4.5";
    NoDotInGroups(five);
    SplitJoin(five, '.');
  }

  lemma LongGroupRejected()
    ensures !MatchesIpPattern("1234.1.1.1")
  {
    var long := ["1234", "1", "1", "1"];
    JoinFour(long, '.');
    assert Join(long, '.') == "1234.1.1.1";
    assert '.' !in "1234" by {
      forall k | 0 <= k < 4 ensures "1234"[k] != '.' { }
    }
    NoDotInGroups(long[1..]);
    SplitJoin(long, '.');
  }

  // ---------------------------------------------------------------------
  // Upload progress

  /**
   * `Math.round((loaded * 100) / total)` in exact arithmetic: the integer
   * nearest to `100 * loaded / total`, a half rounded up, which is what
   * `Math.round` does (`floor(x + 0.5)`).
   */
  function ProgressPercent(loaded: nat, total: nat): (p: nat)
    requires total > 0
    ensures p * (2 * total) <= 200 * loaded + total < p * (2 * total) + 2 * total
  {
    (200 * loaded + total) / (2 * total)
  }

  /** Progress lies in 0 .. 100 while no more than the total was sent: 0 at the start and 100 at the end. */
  lemma ProgressBounds(loaded: nat, total: nat)
    requires total > 0 && loaded <= total
    ensures ProgressPercent(loaded, total) <= 100
    ensures loaded == 0 ==> ProgressPercent(loaded, total) == 0
    ensures loaded == total ==> ProgressPercent(loaded, total) == 100
  {
    var p := ProgressPercent(loaded, total);
    if p > 100 {
      MulMono(101, 2 * total, p, 2 * total);
    }
    if loaded == total && p < 100 {
      MulMono(p + 1, 2 * total, 100, 2 * total);
    }
    if loaded == 0 && p > 0 {
      MulMono(1, 2 * total, p, 2 * total);
    }
  }

  /** More bytes sent never shows less progress. */
  lemma ProgressMonotone(a: nat, b: nat, total: nat)
    requires total > 0 && a <= b
    ensures ProgressPercent(a, total) <= ProgressPercent(b, total)
  {
    var pa, pb := ProgressPercent(a, total), ProgressPercent(b, total);
    if pa > pb {
      MulMono(pb + 1, 2 * total, pa, 2 * total);
    }
  }

  /** A progress event: bytes sent so far, and the total when the browser knows it. */
  datatype ProgressEvent = ProgressEvent(loaded: nat, total: Option<nat>)

  /**
   * onUploadProgress: a percentage is passed on only when the total is
   * known and non-zero (`if (progressEvent.total)`) and a callback was given.
   */
  function OnUploadProgress(e: ProgressEvent, hasCallback: bool): (reported: Option<nat>)
    ensures reported.Some? <==> hasCallback && e.total.Some? && e.total.value != 0
    ensures reported.Some? ==> reported.value == ProgressPercent(e.loaded, e.total.value)
  {
    if e.total.Some? && e.total.value != 0 && hasCallback then
      Some(ProgressPercent(e.loaded, e.total.value))
    else None
  }

  /** The percentages the callback receives over a run of progress events. */
  function ReportedProgress(events: seq<ProgressEvent>, hasCallback: bool): (reported: seq<nat>)
    ensures !hasCallback ==> reported == []
    ensures |reported| <= |events|
  {
    if |events| == 0 then []
    else
      var r := OnUploadProgress(events[|events| - 1], hasCallback);
      ReportedProgress(events[..|events| - 1], hasCallback) + (if r.Some? then [r.value] else [])
  }

  /** While bytes are sent against one known total, the reported percentages never go down and stay within 0 .. 100. */
  lemma {:induction false} ReportedProgressMonotone(events: seq<ProgressEvent>, hasCallback: bool, total: nat)
    requires total > 0
    requires forall i :: 0 <= i < |events| ==> events[i].total == Some(total) && events[i].loaded <= total
    requires forall i, j :: 0 <= i < j < |events| ==> events[i].loaded <= events[j].loaded
    ensures var r := ReportedProgress(events, hasCallback);
      && (forall i :: 0 <= i < |r| ==> 0 <= r[i] <= 100)
      && (forall i, j :: 0 <= i < j < |r| ==> r[i] <= r[j])
      && (hasCallback && |events| > 0 ==> |r| > 0 && r[|r| - 1] == ProgressPercent(events[|events| - 1].loaded, total))
  {
    if |events| > 0 {
      var init := events[..|events| - 1];
      ReportedProgressMonotone(init, hasCallback, total);
      var before := ReportedProgress(init, hasCallback);
      var last := events[|events| - 1];
      ProgressBounds(last.loaded, total);
      if hasCallback {
        forall i | 0 <= i < |before|
          ensures before[i] <= ProgressPercent(last.loaded, total)
        {
          ReportedBelowLast(init, hasCallback, total, last.loaded, i);
        }
      }
    }
  }

  /** Every percentage reported for earlier events is at most the one for a later, larger count. */
  lemma {:induction false} ReportedBelowLast(events: seq<ProgressEvent>, hasCallback: bool, total: nat, loaded: nat, i: nat)
    requires total > 0
    requires forall k :: 0 <= k < |events| ==> events[k].total == Some(total) && events[k].loaded <= loaded
    requires i < |ReportedProgress(events, hasCallback)|
    ensures ReportedProgress(events, hasCallback)[i] <= ProgressPercent(loaded, total)
  {
    var init := events[..|events| - 1];
    var last := events[|events| - 1];
    var before := ReportedProgress(init, hasCallback);
    if i < |before| {
      ReportedBelowLast(init, hasCallback, total, loaded, i);
    } else {
      ProgressMonotone(last.loaded, loaded, total);
    }
  }

  // ---------------------------------------------------------------------
  // Upload failures

  /** What axios reports about a failed request. */
  datatype RequestError = RequestError(code: Option<string>, responseStatus: Option<nat>, requestSent: bool)

  /** The four kinds of failure the user is told apart. */
  datatype FailureKind = TimedOut | ServerError(status: nat) | Unreachable | OtherFailure

  /** The checks in order: timeout code, then a server response, then a request without answer. */
  function Classify(e: RequestError): (k: FailureKind)
    ensures e.code == Some("ECONNABORTED") ==> k == TimedOut
    ensures k.ServerError? <==> e.code != Some("ECONNABORTED") && e.responseStatus.Some?
    ensures k.ServerError? ==> k.status == e.responseStatus.value
    ensures k == Unreachable <==> e.code != Some("ECONNABORTED") && e.responseStatus.None? && e.requestSent
  {
    if e.code == Some("ECONNABORTED") then TimedOut
    else if e.responseStatus.Some? then ServerError(e.responseStatus.value)
    else if e.requestSent then Unreachable
    else OtherFailure
  }

  const TimeoutMessage: string := "タイムアウトしました。ネットワーク接続を確認してください。"
  const ServerErrorPrefix: string := "サーバーエラー: "
  const UnreachableMessage: string := "サーバーに接続できません。IPアドレスを確認してください。"
  const DefaultFailureMessage: string := "動画の送信に失敗しました。"

  /**
   * The message for each kind of failure. Only a server error's message
   * starts with the server-error prefix, and its fifth character tells it
   * from the others.
   */
  function FailureMessage(k: FailureKind): (m: string)
    ensures |m| > 4
    ensures k.ServerError? ==>
      |m| > |ServerErrorPrefix| && m[..|ServerErrorPrefix|] == ServerErrorPrefix
      && m[|ServerErrorPrefix|..] == FormatDecimal(k.status)
    ensures m[4] == 'エ' <==> k.ServerError?
  {
    match k
    case TimedOut => TimeoutMessage
    case ServerError(status) =>
      var m := ServerErrorPrefix + FormatDecimal(status);
      assert m[4] == ServerErrorPrefix[4];
      m
    case Unreachable => UnreachableMessage
    case OtherFailure => DefaultFailureMessage
  }

  /** The error message shown for a failed upload, following the checks in order. */
  function ErrorMessage(e: RequestError): (m: string)
    ensures e.code == Some("ECONNABORTED") ==> m == TimeoutMessage
    ensures e.code != Some("ECONNABORTED") && e.responseStatus.Some? ==>
      m == ServerErrorPrefix + FormatDecimal(e.responseStatus.value)
    ensures e.code != Some("ECONNABORTED") && e.responseStatus.None? && e.requestSent ==> m == UnreachableMessage
    ensures e.code != Some("ECONNABORTED") && e.responseStatus.None? && !e.requestSent ==> m == DefaultFailureMessage
  {
    FailureMessage(Classify(e))
  }

  /** Different kinds of failure, and different server statuses, show different messages. */
  lemma FailureMessageInjective(k1: FailureKind, k2: FailureKind)
    requires FailureMessage(k1) == FailureMessage(k2)
    ensures k1 == k2
  {
    if k1.ServerError? && k2.ServerError? {
      FormatInjective(k1.status, k2.status);
    }
  }

  /** The server's status can be read back from its message. */
  lemma ServerStatusRecoverable(e: RequestError)
    requires e.code != Some("ECONNABORTED") && e.responseStatus.Some?
    ensures var m := ErrorMessage(e);
      && |m| > |ServerErrorPrefix| && m[..|ServerErrorPrefix|] == ServerErrorPrefix
      && AllDigits(m[|ServerErrorPrefix|..])
      && ParseDecimal(m[|ServerErrorPrefix|..]) == e.responseStatus.value
  {
    var m := ErrorMessage(e);
    assert m[|ServerErrorPrefix|..] == FormatDecimal(e.responseStatus.value);
    ParseFormat(e.responseStatus.value);
  }

  // ---------------------------------------------------------------------
  // The file part and the results

  /** The file object as the picker gives it; a missing or empty type or name is None or "". */
  datatype VideoFile = VideoFile(uri: string, fileType: Option<string>, name: Option<string>)

  datatype FilePart = FilePart(uri: string, fileType: string, name: string)

  /** JavaScript's `value || fallback` on an optional string: the fallback for undefined or "". */
  function OrDefault(value: Option<string>, fallback: string): (r: string)
    ensures value.Some? && value.value != "" ==> r == value.value
    ensures value.None? || value.value == "" ==> r == fallback
  {
    if value.Some? && value.value != "" then value.value else fallback
  }

  const DefaultVideoType: string := "video/mp4"
  const DefaultVideoName: string := "video.mp4"

  /** The form part sent as `video`: type and name default to an MP4 file. */
  function FileToUpload(f: VideoFile): (part: FilePart)
    ensures part.uri == f.uri
    ensures part.fileType != "" && part.name != ""
    ensures f.fileType.Some? && f.fileType.value != "" ==> part.fileType == f.fileType.value
    ensures f.name.Some? && f.name.value != "" ==> part.name == f.name.value
  {
    FilePart(f.uri, OrDefault(f.fileType, DefaultVideoType), OrDefault(f.name, DefaultVideoName))
  }

  /** Filling in the defaults twice changes nothing more. */
  lemma FileToUploadIdempotent(f: VideoFile)
    ensures var p := FileToUpload(f);
      FileToUpload(VideoFile(p.uri, Some(p.fileType), Some(p.name))) == p
  {
  }

  /** What the health request ended with: the `status` field of the body (None when absent), or an error. */
  datatype HealthOutcome = HealthResponse(status: Option<string>) | HealthFailed

  /** testConnection: true exactly when the server answered with status "ok". */
  function TestConnection(outcome: HealthOutcome): (connected: bool)
    ensures connected <==> outcome == HealthResponse(Some("ok"))
  {
    match outcome
    case HealthResponse(status) => status == Some("ok")
    case HealthFailed => false
  }

  /** What the upload request ended with. */
  datatype UploadOutcome<D> = Uploaded(data: D) | UploadFailed(error: RequestError)

  /** `{success: true, data}` or `{success: false, error}`. */
  datatype UploadResult<D> = Success(data: D) | Failure(error: string)

  /** uploadVideo's result: the server's data on success, the classified message on failure. */
  function UploadVideo<D>(outcome: UploadOutcome<D>): (r: UploadResult<D>)
    ensures r.Success? <==> outcome.Uploaded?
    ensures r.Success? ==> r.data == outcome.data
    ensures r.Failure? ==> r.error == ErrorMessage(outcome.error)
  {
    match outcome
    case Uploaded(data) => Success(data)
    case UploadFailed(e) => Failure(ErrorMessage(e))
  }
}
