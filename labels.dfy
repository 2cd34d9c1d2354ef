/** Display strings of the reboot-to extension: the pretty name derived from a
    boot-loader entry id, the menu and dialog texts built from templates, and the
    decimal rendering of the seconds shown in the countdown dialog. */
module Labels {

  datatype Option<T> = None | Some(value: T)

  /** `pat` occurs in `s` starting at index `i`. */
  predicate OccursAt(s: string, pat: string, i: nat) {
    i + |pat| <= |s| && s[i..i + |pat|] == pat
  }

  /** `String.prototype.replace` with a literal pattern and no `g` flag: the
      string is scanned left to right and only the first occurrence of `pat`
      is replaced; the replacement is taken literally. At most one occurrence
      is replaced, so the length is either kept or changed by exactly one
      replacement. */
  function ReplaceFirst(s: string, pat: string, rep: string): (r: string)
    ensures |r| == |s| || |r| == |s| - |pat| + |rep|
    decreases |s|
  {
    if |s| < |pat| then s
    else if s[..|pat|] == pat then rep + s[|pat|..]
    else [s[0]] + ReplaceFirst(s[1..], pat, rep)
  }

  predicate EndsWith(s: string, suffix: string) {
    |suffix| <= |s| && s[|s| - |suffix|..] == suffix
  }

  /** The anchored pattern `\.conf$`: removed only when it ends the string. */
  function StripSuffix(s: string, suffix: string): (r: string)
    ensures EndsWith(s, suffix) ==> r + suffix == s
    ensures !EndsWith(s, suffix) ==> r == s
  {
    if EndsWith(s, suffix) then s[..|s| - |suffix|] else s
  }

  /** `toUpperCase` restricted to ASCII: lower-case letters are shifted, every
      other character is left as it is. */
  function Upper(c: char): char {
    if 'a' <= c <= 'z' then (c as int - 32) as char else c
  }

  /** `s.charAt(0).toUpperCase() + s.slice(1)`; `charAt(0)` of "" is "".
      Only the first character can change: it changes exactly when it is a
      lower-case letter, and then into the same letter in upper case. */
  function Capitalize(s: string): (r: string)
    ensures |r| == |s|
    ensures forall k :: 1 <= k < |s| ==> r[k] == s[k]
    ensures |s| > 0 ==> (r[0] != s[0] <==> 'a' <= s[0] <= 'z')
    ensures |s| > 0 && 'a' <= s[0] <= 'z' ==>
      'A' <= r[0] <= 'Z' && r[0] as int - 'A' as int == s[0] as int - 'a' as int
  {
    if s == [] then [] else [Upper(s[0])] + s[1..]
  }

  const ConfSuffix := ".conf"
  const FirmwareEntry := "auto-reboot-to-firmware-setup"
  const FirmwareName := "UEFI"
  const AutoPrefix := "auto-"

  /** The four substitutions applied to an entry id, in source order, before
      the first character is capitalised. None of them lengthens the id. */
  function Substituted(entry: string): (r: string)
    ensures |r| <= |entry|
  {
    var noConf := StripSuffix(entry, ConfSuffix);
    var firmware := ReplaceFirst(noConf, FirmwareEntry, FirmwareName);
    var noAuto := ReplaceFirst(firmware, AutoPrefix, "");
    ReplaceFirst(noAuto, "-", " ")
  }

  /** The display name of a boot-loader entry: never longer than the id. */
  function PrettyName(entry: string): (r: string)
    ensures |r| == |Substituted(entry)| <= |entry|
  {
    Capitalize(Substituted(entry))
  }

  // ---------------------------------------------------------------------------
  // Templates

  const TitleBefore := "Restart to "
  const MessageBefore := "The system will restart automatically in "
  const MessageAfter := " seconds."

  /** The two templates; each holds its placeholder once. */
  const RestartTemplate := TitleBefore + "%s"
  const MessageTemplate := MessageBefore + "%d" + MessageAfter

  /** The dialog title: the restart template around the name (the result of
      replacing `%s`, as `TitleTextShape` shows). */
  function TitleText(name: string): string {
    TitleBefore + name
  }

  /** The menu item label: the title followed by an ellipsis. */
  function MenuText(name: string): string {
    TitleText(name) + "..."
  }

  /** The dialog message: the countdown template around the decimal rendering
      of `seconds` (the result of replacing `%d`, as `MessageTextShape` shows). */
  function MessageText(seconds: nat): string {
    MessageBefore + Decimal(seconds) + MessageAfter
  }

  // ---------------------------------------------------------------------------
  // Decimal rendering of a number, as JavaScript converts a number to a string

  predicate IsDigit(c: char) {
    '0' <= c <= '9'
  }

  function Digit(d: nat): (c: char)
    requires d < 10
    ensures IsDigit(c) && c as int - '0' as int == d
  {
    ('0' as int + d) as char
  }

  /** Decimal digits of `n`, most significant first, without leading zeros. */
  function Decimal(n: nat): (r: string)
    ensures |r| >= 1
    ensures forall k :: 0 <= k < |r| ==> IsDigit(r[k])
    ensures (r[0] == '0') == (n == 0)
  {
    if n < 10 then [Digit(n)] else Decimal(n / 10) + [Digit(n % 10)]
  }

  /** The number a string of decimal digits denotes. */
  function ValueOf(s: string): nat
    requires forall k :: 0 <= k < |s| ==> IsDigit(s[k])
  {
    if s == [] then 0
    else
      var last := s[|s| - 1];
      assert IsDigit(last);
      ValueOf(s[..|s| - 1]) * 10 + (last as int - '0' as int)
  }

  // ---------------------------------------------------------------------------
  // Properties of the substitutions

  /** No occurrence of `pat` in `s` starts before index `i`. */
  predicate NoneBefore(s: string, pat: string, i: nat) {
    forall j: nat :: j < i ==> !OccursAt(s, pat, j)
  }

  /** Replacement happens at the first occurrence and nowhere else. */
  lemma {:induction false} ReplaceFirstAt(s: string, pat: string, rep: string, i: nat)
    requires OccursAt(s, pat, i) && NoneBefore(s, pat, i)
    ensures ReplaceFirst(s, pat, rep) == s[..i] + rep + s[i + |pat|..]
    decreases i
  {
    if i > 0 {
      assert !OccursAt(s, pat, 0);
      assert s[1..][i - 1..i - 1 + |pat|] == s[i..i + |pat|];
      forall j: nat | j < i - 1
        ensures !OccursAt(s[1..], pat, j)
      {
        assert !OccursAt(s, pat, j + 1);
        if j + |pat| <= |s| - 1 {
          assert s[1..][j..j + |pat|] == s[j + 1..j + 1 + |pat|];
        }
      }
      ReplaceFirstAt(s[1..], pat, rep, i - 1);
      assert s[..i] == [s[0]] + s[1..][..i - 1];
      assert s[i + |pat|..] == s[1..][i - 1 + |pat|..];
    }
  }

  /** Without an occurrence the string is left unchanged. */
  lemma {:induction false} ReplaceFirstAbsent(s: string, pat: string, rep: string)
    requires forall j: nat :: !OccursAt(s, pat, j)
    ensures ReplaceFirst(s, pat, rep) == s
    decreases |s|
  {
    if |s| >= |pat| {
      assert !OccursAt(s, pat, 0);
      forall j: nat
        ensures !OccursAt(s[1..], pat, j)
      {
        assert !OccursAt(s, pat, j + 1);
        if j + |pat| <= |s| - 1 {
          assert s[1..][j..j + |pat|] == s[j + 1..j + 1 + |pat|];
        }
      }
      ReplaceFirstAbsent(s[1..], pat, rep);
      assert s == [s[0]] + s[1..];
    }
  }

  /** One differing character rules an occurrence out. */
  lemma Mismatch(s: string, pat: string, j: nat, k: nat)
    requires k < |pat|
    requires j + |pat| <= |s| ==> s[j + k] != pat[k]
    ensures !OccursAt(s, pat, j)
  {
    if j + |pat| <= |s| {
      assert s[j..j + |pat|][k] == s[j + k];
    }
  }

  /** A pattern found right after `prefix`, with no earlier occurrence, is the
      one replaced. */
  lemma ReplaceAfterPrefix(prefix: string, pat: string, rest: string, rep: string)
    requires NoneBefore(prefix + pat + rest, pat, |prefix|)
    ensures ReplaceFirst(prefix + pat + rest, pat, rep) == prefix + rep + rest
  {
    var s := prefix + pat + rest;
    assert s[|prefix|..|prefix| + |pat|] == pat;
    ReplaceFirstAt(s, pat, rep, |prefix|);
    assert s[..|prefix|] == prefix;
    assert s[|prefix| + |pat|..] == rest;
  }

  /** A pattern whose first character does not occur in `prefix` cannot start
      inside it: the shape of every template here. */
  lemma FirstCharNotInPrefix(prefix: string, pat: string, rest: string)
    requires pat != [] && pat[0] !in prefix
    ensures NoneBefore(prefix + pat + rest, pat, |prefix|)
  {
    var s := prefix + pat + rest;
    forall j: nat | j < |prefix|
      ensures !OccursAt(s, pat, j)
    {
      assert s[j] == prefix[j];
      assert prefix[j] in prefix;
      Mismatch(s, pat, j, 0);
    }
  }

  /** A pattern one of whose characters is absent from `s` does not occur in it. */
  lemma AbsentWithoutChar(s: string, pat: string, k: nat)
    requires k < |pat| && pat[k] !in s
    ensures forall j: nat :: !OccursAt(s, pat, j)
  {
    forall j: nat
      ensures !OccursAt(s, pat, j)
    {
      if j + |pat| <= |s| {
        assert s[j + k] in s;
      }
      Mismatch(s, pat, j, k);
    }
  }

  /** The `.conf` suffix is removed when it ends the id. */
  lemma StripConfSuffix(base: string)
    ensures StripSuffix(base + ConfSuffix, ConfSuffix) == base
  {
    var s := base + ConfSuffix;
    assert s[|s| - |ConfSuffix|..] == ConfSuffix;
    assert s[..|s| - |ConfSuffix|] == base;
  }

  /** A `.conf` followed by anything that does not itself end in `.conf` is
      not removed: the pattern is anchored at the end of the id. */
  lemma StripConfOnlyAtEnd(base: string, rest: string)
    requires rest != [] && !EndsWith(rest, ConfSuffix)
    ensures StripSuffix(base + ConfSuffix + rest, ConfSuffix) == base + ConfSuffix + rest
  {
    var s := base + ConfSuffix + rest;
    if |rest| >= |ConfSuffix| {
      assert s[|s| - |ConfSuffix|..] == rest[|rest| - |ConfSuffix|..];
    } else {
      assert s[|s| - |ConfSuffix|] == ConfSuffix[|rest|];
    }
  }

  /** The id `x.conf-y` keeps its `.conf`. */
  lemma ConfInTheMiddle()
    ensures StripSuffix("x.conf-y", ConfSuffix) == "x.conf-y"
  {
    StripConfOnlyAtEnd("x", "-y");
    assert "x" + ConfSuffix + "-y" == "x.conf-y";
  }

  /** Number of occurrences of character `c` in `s`. */
  function Count(s: string, c: char): (n: nat)
    ensures n <= |s|
  {
    if s == [] then 0 else (if s[0] == c then 1 else 0) + Count(s[1..], c)
  }

  /** The index of the first `c` in `s`. */
  function FirstIndex(s: string, c: char): (i: nat)
    requires c in s
    ensures i < |s| && s[i] == c && c !in s[..i]
  {
    if s[0] == c then 0
    else
      var k :| 0 <= k < |s| && s[k] == c;
      assert s[1..][k - 1] == c;
      var i := 1 + FirstIndex(s[1..], c);
      assert s[..i] == [s[0]] + s[1..][..i - 1];
      i
  }

  /** Replacing the first hyphen with a space touches that hyphen only: every
      later hyphen survives, so exactly one hyphen disappears. */
  lemma FirstHyphenOnly(s: string)
    ensures '-' !in s ==> ReplaceFirst(s, "-", " ") == s
    ensures '-' in s ==> var i := FirstIndex(s, '-');
      ReplaceFirst(s, "-", " ") == s[..i] + " " + s[i + 1..]
    ensures '-' in s ==> Count(ReplaceFirst(s, "-", " "), '-') == Count(s, '-') - 1
  {
    if '-' !in s {
      AbsentWithoutChar(s, "-", 0);
      ReplaceFirstAbsent(s, "-", " ");
    } else {
      var i := FirstIndex(s, '-');
      FirstHyphenReplaced(s, i);
      HyphenCountDrops(s, i);
    }
  }

  /** The hyphen at `i`, with none before it, is the one replaced. */
  lemma FirstHyphenReplaced(s: string, i: nat)
    requires i < |s| && s[i] == '-' && '-' !in s[..i]
    ensures ReplaceFirst(s, "-", " ") == s[..i] + " " + s[i + 1..]
  {
    var prefix, rest := s[..i], s[i + 1..];
    assert s == prefix + "-" + rest;
    FirstCharNotInPrefix(prefix, "-", rest);
    ReplaceAfterPrefix(prefix, "-", rest, " ");
  }

  /** Turning the hyphen at `i` into a space leaves one hyphen fewer. */
  lemma {:induction false} HyphenCountDrops(s: string, i: nat)
    requires i < |s| && s[i] == '-'
    ensures Count(s[..i] + " " + s[i + 1..], '-') == Count(s, '-') - 1
    decreases i
  {
    var t := s[..i] + " " + s[i + 1..];
    if i == 0 {
      assert t[1..] == s[1..];
    } else {
      HyphenCountDrops(s[1..], i - 1);
      assert t[0] == s[0];
      assert t[1..] == s[1..][..i - 1] + " " + s[1..][i..];
    }
  }

  /** `auto-` is deleted wherever it first occurs, not only at the start. */
  lemma AutoDeletedAnywhere(before: string, after: string)
    requires '-' !in before
    ensures ReplaceFirst(before + AutoPrefix + after, AutoPrefix, "") == before + after
  {
    var s := before + AutoPrefix + after;
    forall j: nat | j < |before|
      ensures !OccursAt(s, AutoPrefix, j)
    {
      if j + 4 < |before| {
        assert s[j + 4] == before[j + 4];
        assert before[j + 4] in before;
      } else {
        assert s[j + 4] == AutoPrefix[j + 4 - |before|];
      }
      Mismatch(s, AutoPrefix, j, 4);
    }
    ReplaceAfterPrefix(before, AutoPrefix, after, "");
  }

  /** Capitalising twice is capitalising once. */
  lemma CapitalizeIdempotent(s: string)
    ensures Capitalize(Capitalize(s)) == Capitalize(s)
  {
  }

  /** The label is empty exactly when the substitutions leave nothing. */
  lemma EmptyLabel(entry: string)
    ensures PrettyName(entry) == "" <==> Substituted(entry) == ""
  {
  }

  /** In `auto-<name>` with a hyphen-free name the only hyphen is at index 4,
      while the firmware pattern needs hyphens at two places. */
  lemma NoFirmwareInAuto(name: string)
    requires '-' !in name
    ensures forall j: nat :: !OccursAt(AutoPrefix + name, FirmwareEntry, j)
  {
    var s := AutoPrefix + name;
    forall j: nat
      ensures !OccursAt(s, FirmwareEntry, j)
    {
      if j + |FirmwareEntry| <= |s| {
        if j == 0 {
          assert s[11] == name[6];
          assert name[6] in name;
          Mismatch(s, FirmwareEntry, j, 11);
        } else {
          assert s[j + 4] == name[j - 1];
          assert name[j - 1] in name;
          Mismatch(s, FirmwareEntry, j, 4);
        }
      } else {
        Mismatch(s, FirmwareEntry, j, 0);
      }
    }
  }

  /** A symbolic `auto-<name>` entry whose name holds no hyphen and is not a
      `.conf` file is shown as the capitalised name. */
  lemma AutoEntryLabel(name: string)
    requires '-' !in name && !EndsWith(name, ConfSuffix)
    ensures PrettyName(AutoPrefix + name) == Capitalize(name)
  {
    var entry := AutoPrefix + name;
    assert !EndsWith(entry, ConfSuffix) by {
      if |ConfSuffix| <= |name| {
        assert entry[|entry| - |ConfSuffix|..] == name[|name| - |ConfSuffix|..];
      } else {
        assert entry[|entry| - 5] == AutoPrefix[|name|];
      }
    }
    NoFirmwareInAuto(name);
    ReplaceFirstAbsent(entry, FirmwareEntry, FirmwareName);
    AutoDeletedAnywhere([], name);
    assert [] + AutoPrefix + name == entry;
    assert [] + name == name;
    FirstHyphenOnly(name);
  }

  /** Outside index |distro| the id `<distro>-<variant>` holds no hyphen. */
  lemma NotHyphen(distro: string, variant: string, m: nat)
    requires '-' !in distro && '-' !in variant
    requires m < |distro| + 1 + |variant| && m != |distro|
    ensures (distro + "-" + variant)[m] != '-'
  {
    var s := distro + "-" + variant;
    if m < |distro| {
      assert s[m] == distro[m];
      assert distro[m] in distro;
    } else {
      assert s[m] == variant[m - |distro| - 1];
      assert variant[m - |distro| - 1] in variant;
    }
  }

  /** A `<distro>-<variant>.conf` entry (no other hyphen, distro not ending in
      `auto`) is shown as the capitalised `<distro> <variant>`. */
  lemma ConfEntryLabel(distro: string, variant: string)
    requires '-' !in distro && '-' !in variant
    requires !EndsWith(distro, "auto")
    ensures PrettyName(distro + "-" + variant + ConfSuffix) == Capitalize(distro + " " + variant)
  {
    var base := distro + "-" + variant;
    StripConfSuffix(base);
    forall j: nat
      ensures !OccursAt(base, FirmwareEntry, j)
    {
      if j + |FirmwareEntry| <= |base| {
        if j + 4 != |distro| {
          NotHyphen(distro, variant, j + 4);
          Mismatch(base, FirmwareEntry, j, 4);
        } else {
          NotHyphen(distro, variant, j + 11);
          Mismatch(base, FirmwareEntry, j, 11);
        }
      } else {
        Mismatch(base, FirmwareEntry, j, 0);
      }
    }
    ReplaceFirstAbsent(base, FirmwareEntry, FirmwareName);
    forall j: nat
      ensures !OccursAt(base, AutoPrefix, j)
    {
      if j + |AutoPrefix| <= |base| {
        if j + 4 != |distro| {
          NotHyphen(distro, variant, j + 4);
          Mismatch(base, AutoPrefix, j, 4);
        } else {
          assert distro[j..] != "auto";
          var k :| 0 <= k < 4 && distro[j + k] != "auto"[k];
          assert base[j + k] == distro[j + k];
          Mismatch(base, AutoPrefix, j, k);
        }
      } else {
        Mismatch(base, AutoPrefix, j, 0);
      }
    }
    ReplaceFirstAbsent(base, AutoPrefix, "");
    FirstCharNotInPrefix(distro, "-", variant);
    ReplaceAfterPrefix(distro, "-", variant, " ");
  }

  /** Replacing `%s` in the restart template gives the title, and the menu
      label is that title with an ellipsis. */
  lemma TitleTextShape(name: string)
    ensures ReplaceFirst(RestartTemplate, "%s", name) == TitleText(name)
    ensures MenuText(name) == ReplaceFirst(RestartTemplate, "%s", name) + "..."
  {
    FirstCharNotInPrefix(TitleBefore, "%s", "");
    ReplaceAfterPrefix(TitleBefore, "%s", "", name);
    assert TitleBefore + "%s" + "" == RestartTemplate;
    assert TitleBefore + name + "" == TitleText(name);
  }

  /** Replacing `%d` in the countdown template with the decimal rendering of
      `seconds` gives the message. */
  lemma MessageTextShape(seconds: nat)
    ensures ReplaceFirst(MessageTemplate, "%d", Decimal(seconds)) == MessageText(seconds)
  {
    FirstCharNotInPrefix(MessageBefore, "%d", MessageAfter);
    ReplaceAfterPrefix(MessageBefore, "%d", MessageAfter, Decimal(seconds));
  }

  /** Reading the rendered seconds back gives the number shown. */
  lemma {:induction false} DecimalRoundTrip(n: nat)
    ensures ValueOf(Decimal(n)) == n
  {
    if n >= 10 {
      var r := Decimal(n);
      assert r[..|r| - 1] == Decimal(n / 10);
      DecimalRoundTrip(n / 10);
    }
  }

  // ---------------------------------------------------------------------------
  // The entries the extension's own comment lists

  lemma WindowsLabel()
    ensures PrettyName(AutoPrefix + "windows") == "Windows"
  {
    AutoEntryLabel("windows");
    CapitalizeWindows();
  }

  lemma CapitalizeWindows()
    ensures Capitalize("windows") == "Windows"
  {
  }

  lemma PopCurrentLabel()
    ensures PrettyName("Pop_OS" + "-" + "current" + ConfSuffix) == "Pop_OS current"
  {
    ConfEntryLabel("Pop_OS", "current");
  }

  lemma FirmwareLabel()
    ensures PrettyName(FirmwareEntry) == FirmwareName
  {
    assert !EndsWith(FirmwareEntry, ConfSuffix);
    FirstCharNotInPrefix([], FirmwareEntry, []);
    ReplaceAfterPrefix([], FirmwareEntry, [], FirmwareName);
    assert [] + FirmwareEntry + [] == FirmwareEntry;
    assert [] + FirmwareName + [] == FirmwareName;
    AbsentWithoutChar(FirmwareName, AutoPrefix, 4);
    ReplaceFirstAbsent(FirmwareName, AutoPrefix, "");
    AbsentWithoutChar(FirmwareName, "-", 0);
    ReplaceFirstAbsent(FirmwareName, "-", " ");
  }
}
