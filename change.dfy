/** Commits read from the history and grouped under the release that shipped
    them. The history arrives as the text `git log` prints, one commit per
    line in the format
    `COMMIT_ID:<hash> AUTHOR:<name> MESSAGE:<subject> DATE:<date> --date=iso-strict`;
    dates are abstract ordered timestamps, read by a date parser the caller
    supplies. */
module Changes {
  import opened Wrappers
  import opened Strings
  import Versions

  /** The subject of the commit that records a release. */
  const VersionCommitMessage: string := "chore: " + "\U{1F4DD}" + " update changelog" + " and bump version to "

  /** `ChangeType`. */
  datatype ChangeType = Feature | Fix | Version | Unknown

  /** `Change`: one commit. */
  datatype Change = Change(
    message: string,
    commitId: string,
    link: Option<string>,
    author: string,
    changeType: ChangeType,
    date: int)

  /** The points where reading the history aborts. */
  datatype Fault =
    | MissingField(tag: string)            // a capture regex of `parse_change` does not match
    | MalformedDate(text: string)          // the date parser rejects the captured date
    | NoVersionInMessage(message: string)  // `parse_change_for_version` finds no version
    | NoReleaseAfter(commitId: string)     // no release is dated at or after the commit

  // ---------------------------------------------------------------------
  // Parsing one line

  /** The two gitmoji shortcodes replaced by their emoji, then `trim`. */
  function NormaliseMessage(raw: string): (r: string)
    ensures |r| > 0 ==> !IsWhitespace(r[0]) && !IsWhitespace(r[|r| - 1])
  {
    Trim(ReplaceAll(ReplaceAll(raw, ":sparkles:", "\U{2728}"), ":bug:", "\U{1F41B}"))
  }

  /** No shortcode survives normalisation. */
  lemma NormaliseMessageRemovesShortcodes(raw: string)
    ensures !Contains(NormaliseMessage(raw), ":sparkles:")
    ensures !Contains(NormaliseMessage(raw), ":bug:")
  {
    var t1 := ReplaceAll(raw, ":sparkles:", "\U{2728}");
    var t2 := ReplaceAll(t1, ":bug:", "\U{1F41B}");
    assert Disjoint("\U{2728}", ":sparkles:");
    assert Disjoint("\U{1F41B}", ":bug:");
    assert Disjoint("\U{1F41B}", ":sparkles:");
    ReplaceAllRemovesPattern(raw, ":sparkles:", "\U{2728}");
    ReplaceAllKeepsAbsence(t1, ":bug:", "\U{1F41B}", ":sparkles:");
    ReplaceAllRemovesPattern(t1, ":bug:", "\U{1F41B}");
    TrimKeepsAbsence(t2, ":sparkles:");
    TrimKeepsAbsence(t2, ":bug:");
  }

  /** A message with neither shortcode is only trimmed. */
  lemma NormaliseMessagePlain(raw: string)
    requires !Contains(raw, ":sparkles:") && !Contains(raw, ":bug:")
    ensures NormaliseMessage(raw) == Trim(raw)
  {
    ReplaceAllWithoutPattern(raw, ":sparkles:", "\U{2728}");
    ReplaceAllWithoutPattern(raw, ":bug:", "\U{1F41B}");
  }

  /** Within `a + ":bug:" + b`, where neither side holds a colon, the one
      shortcode becomes the bug emoji and nothing else changes before the
      trim. */
  lemma NormaliseMessageReplacesBug(a: string, b: string)
    requires ':' !in a && ':' !in b
    ensures NormaliseMessage(a + ":bug:" + b) == Trim(a + "\U{1F41B}" + b)
  {
    var s := a + ":bug:" + b;
    forall k: nat ensures !OccursAt(s, ":sparkles:", k) {
      OccurrenceChar(s, ":sparkles:", k, 0);
      OccurrenceChar(s, ":sparkles:", k, 9);
      if OccursAt(s, ":sparkles:", k) {
        ColonsOfBug(a, b, k);
      }
    }
    ReplaceAllWithoutPattern(s, ":sparkles:", "\U{2728}");
    ReplaceAllSingle(a, ":bug:", b, "\U{1F41B}");
  }

  /** The only colons of `a + ":bug:" + b` are the two of the shortcode. */
  lemma ColonsOfBug(a: string, b: string, j: nat)
    requires ':' !in a && ':' !in b
    requires j < |a + ":bug:" + b| && (a + ":bug:" + b)[j] == ':'
    ensures j == |a| || j == |a| + 4
  {
    var s := a + ":bug:" + b;
    if |a| <= j < |a| + 5 {
      assert s[j] == ":bug:"[j - |a|];
    }
  }

  /** Within `a + ":sparkles:" + b`, where neither side holds a colon, the one
      shortcode becomes the sparkles emoji and the bug pass finds nothing. */
  lemma NormaliseMessageReplacesSparkles(a: string, b: string)
    requires ':' !in a && ':' !in b
    ensures NormaliseMessage(a + ":sparkles:" + b) == Trim(a + "\U{2728}" + b)
  {
    ReplaceAllSingle(a, ":sparkles:", b, "\U{2728}");
    var t := a + "\U{2728}" + b;
    assert ':' !in t;
    AbsentByHead(t, ":bug:");
    ReplaceAllWithoutPattern(t, ":bug:", "\U{1F41B}");
  }

  /** A commit subject written with the bug shortcode is stored with the
      emoji and without the trailing blank. */
  lemma NormaliseMessageExample(raw: string, a: string, b: string, stored: string)
    requires raw == "a :bug: b " && a == "a " && b == " b " && stored == "a \U{1F41B} b"
    ensures NormaliseMessage(raw) == stored
  {
    ExampleSpelling(raw, a, b, stored);
    NormaliseMessageReplacesBug(a, b);
    TrimBlankAfter(stored);
  }

  lemma ExampleSpelling(raw: string, a: string, b: string, stored: string)
    requires raw == "a :bug: b " && a == "a " && b == " b " && stored == "a \U{1F41B} b"
    ensures raw == a + ":bug:" + b && a + "\U{1F41B}" + b == stored + [' ']
    ensures ':' !in a && ':' !in b
    ensures !IsWhitespace(stored[0]) && !IsWhitespace(stored[|stored| - 1])
  {
  }

  /** `:sparkles:` after a text whose colons neither start another
      `:sparkles:` nor reach a `:bug:` ending in the emoji, followed by a
      colon-free text: only the shortcode changes before the trim. */
  lemma NormaliseMessageReplacesSparklesAfter(a: string, b: string)
    requires ':' !in b
    requires forall k :: 0 <= k < |a| - 1 && a[k] == ':' ==> a[k + 1] != 's'
    requires forall k :: 0 <= k < |a| && a[k] == ':' ==> |a| <= k + 4
    ensures NormaliseMessage(a + ":sparkles:" + b) == Trim(a + "\U{2728}" + b)
  {
    SparklesFirstAfter(a, b);
    ReplaceAllAfterPrefix(a, ":sparkles:", b, "\U{2728}");
    NoBugAfterSparkles(a, b);
    ReplaceAllWithoutPattern(a + "\U{2728}" + b, ":bug:", "\U{1F41B}");
  }

  lemma SparklesFirstAfter(a: string, b: string)
    requires forall k :: 0 <= k < |a| - 1 && a[k] == ':' ==> a[k + 1] != 's'
    ensures forall k: nat :: k < |a| ==> !OccursAt(a + ":sparkles:" + b, ":sparkles:", k)
  {
    var s := a + ":sparkles:" + b;
    forall k: nat | k < |a| ensures !OccursAt(s, ":sparkles:", k) {
      OccurrenceChar(s, ":sparkles:", k, 0);
      OccurrenceChar(s, ":sparkles:", k, 1);
      assert s[k] == a[k];
      if k < |a| - 1 {
        assert s[k + 1] == a[k + 1];
      } else {
        assert s[k + 1] == ':';
      }
    }
  }

  lemma NoBugAfterSparkles(a: string, b: string)
    requires ':' !in b
    requires forall k :: 0 <= k < |a| && a[k] == ':' ==> |a| <= k + 4
    ensures forall k: nat :: !OccursAt(a + "\U{2728}" + b, ":bug:", k)
  {
    var t := a + "\U{2728}" + b;
    forall k: nat ensures !OccursAt(t, ":bug:", k) {
      OccurrenceChar(t, ":bug:", k, 0);
      OccurrenceChar(t, ":bug:", k, 4);
    }
  }

  /** The commit subject of the parse test in `change.rs`: the shortcode
      becomes the emoji, the `feat: ` prefix stays, and the trailing blank the
      lazy capture keeps is trimmed. */
  lemma NormaliseMessageOfTestSubject(raw: string, a: string, b: string, stored: string)
    requires raw == "feat: :sparkles: add new feature " && a == "feat: " && b == " add new feature "
    requires stored == "feat: \U{2728} add new feature"
    ensures NormaliseMessage(raw) == stored
  {
    TestSubjectSpelling(raw, a, b, stored);
    NormaliseMessageReplacesSparklesAfter(a, b);
    TrimBlankAfter(stored);
  }

  lemma TestSubjectSpelling(raw: string, a: string, b: string, stored: string)
    requires raw == "feat: :sparkles: add new feature " && a == "feat: " && b == " add new feature "
    requires stored == "feat: \U{2728} add new feature"
    ensures raw == a + ":sparkles:" + b && a + "\U{2728}" + b == stored + [' ']
    ensures ':' !in b && forall k :: 0 <= k < |a| && a[k] == ':' ==> k == 4 && a[5] == ' ' && |a| == 6
    ensures !IsWhitespace(stored[0]) && !IsWhitespace(stored[|stored| - 1])
  {
    TestSubjectRaw(raw, a, b);
    TestSubjectStored(a, b, stored);
    TestSubjectColons(a, b);
  }

  lemma TestSubjectRaw(raw: string, a: string, b: string)
    requires raw == "feat: :sparkles: add new feature " && a == "feat: " && b == " add new feature "
    ensures raw == a + ":sparkles:" + b
  {
  }

  lemma TestSubjectStored(a: string, b: string, stored: string)
    requires a == "feat: " && b == " add new feature " && stored == "feat: \U{2728} add new feature"
    ensures a + "\U{2728}" + b == stored + [' ']
  {
  }

  lemma TestSubjectColons(a: string, b: string)
    requires a == "feat: " && b == " add new feature "
    ensures ':' !in b && forall k :: 0 <= k < |a| && a[k] == ':' ==> k == 4 && a[5] == ' ' && |a| == 6
  {
  }

  /** The classification chain: `feat:` first, then `fix:`, then the release
      subject. */
  function Classify(message: string): (r: ChangeType)
    ensures r == Feature <==> Contains(message, "feat:")
    ensures r == Fix <==> !Contains(message, "feat:") && Contains(message, "fix:")
    ensures r == Version <==>
      !Contains(message, "feat:") && !Contains(message, "fix:") && Contains(message, VersionCommitMessage)
  {
    if Contains(message, "feat:") then Feature
    else if Contains(message, "fix:") then Fix
    else if Contains(message, VersionCommitMessage) then Version
    else Unknown
  }

  /** The link to a commit on the configured host: GitHub is tested first,
      then Bitbucket Server (`stash/projects`); any other host gives none. */
  function CommitLink(repo: Option<string>, commitId: string): (r: Option<string>)
    ensures repo.None? ==> r.None?
    ensures repo.Some? ==> var base := TrimEndMatches(repo.value, '/');
      if Contains(base, "github") then r == Some(base + "/commit/" + commitId)
      else if Contains(base, "stash/projects") then r == Some(base + "/commits/" + commitId)
      else r.None?
  {
    match repo
    case None => None
    case Some(url) =>
      var base := TrimEndMatches(url, '/');
      if Contains(base, "github") then Some(base + "/commit/" + commitId)
      else if Contains(base, "stash/projects") then Some(base + "/commits/" + commitId)
      else None
  }

  /** Trailing slashes on the configured repository do not matter. */
  lemma CommitLinkIgnoresTrailingSlash(url: string, commitId: string)
    ensures CommitLink(Some(url + "/"), commitId) == CommitLink(Some(url), commitId)
  {
    assert (url + "/")[..|url|] == url;
  }

  /** `parse_change`: the four captures in order (id, author, message, date),
      each trimmed, the message normalised; the first missing capture or a
      date the parser rejects aborts. */
  function ParseChange(line: string, repo: Option<string>, parseDate: string -> Option<int>): (r: Result<Change, Fault>)
    ensures r.Ok? ==> r.value.changeType == Classify(r.value.message)
    ensures r.Ok? ==> r.value.link == CommitLink(repo, r.value.commitId)
    ensures r.Ok? <==>
      && Between(line, "COMMIT_ID:", "AUTHOR:").Some?
      && Between(line, "AUTHOR:", "MESSAGE:").Some?
      && Between(line, "MESSAGE:", "DATE:").Some?
      && Between(line, "DATE:", "--date=iso-strict").Some?
      && parseDate(Trim(Between(line, "DATE:", "--date=iso-strict").value)).Some?
    ensures r.Ok? ==> r.value.commitId == Trim(Between(line, "COMMIT_ID:", "AUTHOR:").value)
    ensures r.Ok? ==> r.value.author == Trim(Between(line, "AUTHOR:", "MESSAGE:").value)
    ensures r.Ok? ==> r.value.message == NormaliseMessage(Between(line, "MESSAGE:", "DATE:").value)
    ensures r.Ok? ==> Some(r.value.date) == parseDate(Trim(Between(line, "DATE:", "--date=iso-strict").value))
  {
    var id := Between(line, "COMMIT_ID:", "AUTHOR:");
    var author := Between(line, "AUTHOR:", "MESSAGE:");
    var message := Between(line, "MESSAGE:", "DATE:");
    var date := Between(line, "DATE:", "--date=iso-strict");
    if id.None? then Err(MissingField("COMMIT_ID:"))
    else if author.None? then Err(MissingField("AUTHOR:"))
    else if message.None? then Err(MissingField("MESSAGE:"))
    else if date.None? then Err(MissingField("DATE:"))
    else
      var commitId := Trim(id.value);
      var text := NormaliseMessage(message.value);
      var dateText := Trim(date.value);
      match parseDate(dateText)
      case None => Err(MalformedDate(dateText))
      case Some(d) => Ok(Change(text, commitId, CommitLink(repo, commitId), Trim(author.value), Classify(text), d))
  }

  /** The fields of a parsed change are trimmed and free of shortcodes. */
  lemma ParseChangeFields(line: string, repo: Option<string>, parseDate: string -> Option<int>)
    ensures var r := ParseChange(line, repo, parseDate);
      r.Ok? ==>
        && (|r.value.commitId| > 0 ==> !IsWhitespace(r.value.commitId[0]) && !IsWhitespace(r.value.commitId[|r.value.commitId| - 1]))
        && (|r.value.author| > 0 ==> !IsWhitespace(r.value.author[0]) && !IsWhitespace(r.value.author[|r.value.author| - 1]))
        && !Contains(r.value.message, ":sparkles:")
        && !Contains(r.value.message, ":bug:")
  {
    var message := Between(line, "MESSAGE:", "DATE:");
    if message.Some? {
      NormaliseMessageRemovesShortcodes(message.value);
    }
  }

  /** The line `git log` prints for one commit in the format `get_changes`
      asks for: `COMMIT_ID:%H AUTHOR:%an MESSAGE:%s DATE:%cd --date=iso-strict`,
      the last option being part of the format text. */
  function LogLine(id: string, author: string, subject: string, date: string): string {
    Marked("COMMIT_ID:", "AUTHOR:", "MESSAGE:", "DATE:", "--date=iso-strict", id, author, subject, date)
  }

  /** No marker of the format occurs in the line before the place where the
      format puts it. */
  predicate MarkersInPlace(id: string, author: string, subject: string, date: string) {
    var p1 := "COMMIT_ID:" + id;
    var p2 := p1 + [' '] + "AUTHOR:" + author;
    var p3 := p2 + [' '] + "MESSAGE:" + subject;
    var p4 := p3 + [' '] + "DATE:" + date;
    && !Contains(p1, "AUTHOR:")
    && !Contains(p2, "MESSAGE:")
    && !Contains(p3, "DATE:")
    && !Contains(p4, "--date=iso-strict")
  }

  /** No whitespace at either end. */
  predicate Trimmed(s: string) {
    |s| > 0 ==> !IsWhitespace(s[0]) && !IsWhitespace(s[|s| - 1])
  }

  lemma MarkersHaveNoBlank()
    ensures ' ' !in "AUTHOR:" && ' ' !in "MESSAGE:" && ' ' !in "DATE:" && ' ' !in "--date=iso-strict"
  {
  }

  /** `parse_change` reads back what `git log` printed: the hash, the author
      and the date as given, and the subject with the blank that follows it
      in the line, shortcodes replaced. */
  lemma ParseLogLine(id: string, author: string, subject: string, date: string,
                     repo: Option<string>, parseDate: string -> Option<int>)
    requires MarkersInPlace(id, author, subject, date)
    requires Trimmed(id) && Trimmed(author) && Trimmed(date)
    requires parseDate(date).Some?
    ensures var message := NormaliseMessage(subject + [' ']);
      ParseChange(LogLine(id, author, subject, date), repo, parseDate) ==
        Ok(Change(message, id, CommitLink(repo, id), author, Classify(message), parseDate(date).value))
  {
    LogLineCaptures(id, author, subject, date);
    ParseCaptured(LogLine(id, author, subject, date), repo, parseDate, id, author, subject, date);
  }

  /** A line whose captures are trimmed fields, each with a blank after it,
      parses to those fields. */
  lemma ParseCaptured(line: string, repo: Option<string>, parseDate: string -> Option<int>,
                      id: string, author: string, subject: string, date: string)
    requires Between(line, "COMMIT_ID:", "AUTHOR:") == Some(id + [' '])
    requires Between(line, "AUTHOR:", "MESSAGE:") == Some(author + [' '])
    requires Between(line, "MESSAGE:", "DATE:") == Some(subject + [' '])
    requires Between(line, "DATE:", "--date=iso-strict") == Some(date + [' '])
    requires Trimmed(id) && Trimmed(author) && Trimmed(date)
    requires parseDate(date).Some?
    ensures var message := NormaliseMessage(subject + [' ']);
      ParseChange(line, repo, parseDate) ==
        Ok(Change(message, id, CommitLink(repo, id), author, Classify(message), parseDate(date).value))
  {
    TrimBlankAfter(id);
    TrimBlankAfter(author);
    TrimBlankAfter(date);
  }

  /** Each capture of `parse_change` on a printed line is its field and the
      blank after it. */
  lemma LogLineCaptures(id: string, author: string, subject: string, date: string)
    requires MarkersInPlace(id, author, subject, date)
    ensures var line := LogLine(id, author, subject, date);
      && Between(line, "COMMIT_ID:", "AUTHOR:") == Some(id + [' '])
      && Between(line, "AUTHOR:", "MESSAGE:") == Some(author + [' '])
      && Between(line, "MESSAGE:", "DATE:") == Some(subject + [' '])
      && Between(line, "DATE:", "--date=iso-strict") == Some(date + [' '])
  {
    MarkersHaveNoBlank();
    var m1, m2, m3, m4, m5 := "COMMIT_ID:", "AUTHOR:", "MESSAGE:", "DATE:", "--date=iso-strict";
    FirstCapture(m1, m2, m3, m4, m5, id, author, subject, date);
    SecondCapture(m1, m2, m3, m4, m5, id, author, subject, date);
    ThirdCapture(m1, m2, m3, m4, m5, id, author, subject, date);
    FourthCapture(m1, m2, m3, m4, m5, id, author, subject, date);
  }

  /** A line of four fields, each after its marker and the markers after
      the first each after a blank. */
  function Marked(m1: string, m2: string, m3: string, m4: string, m5: string,
                  a: string, b: string, c: string, d: string): string {
    m1 + a + [' '] + m2 + b + [' '] + m3 + c + [' '] + m4 + d + [' '] + m5
  }

  lemma FirstCapture(m1: string, m2: string, m3: string, m4: string, m5: string,
                     a: string, b: string, c: string, d: string)
    requires ' ' !in m2 && !Contains(m1 + a, m2)
    ensures Between(Marked(m1, m2, m3, m4, m5, a, b, c, d), m1, m2) == Some(a + [' '])
  {
    var q := m1 + a + [' '] + m2;
    var line := Marked(m1, m2, m3, m4, m5, a, b, c, d);
    var rest := b + [' '] + m3 + c + [' '] + m4 + d + [' '] + m5;
    assert line == q + rest;
    CaptureAtStart(m1, a, m2, rest);
  }

  lemma SecondCapture(m1: string, m2: string, m3: string, m4: string, m5: string,
                      a: string, b: string, c: string, d: string)
    requires ' ' !in m2 && !Contains(m1 + a, m2)
    requires ' ' !in m3 && !Contains(m1 + a + [' '] + m2 + b, m3)
    ensures Between(Marked(m1, m2, m3, m4, m5, a, b, c, d), m2, m3) == Some(b + [' '])
  {
    var q := m1 + a + [' '] + m2 + b + [' '] + m3;
    var line := Marked(m1, m2, m3, m4, m5, a, b, c, d);
    var rest := c + [' '] + m4 + d + [' '] + m5;
    assert line == q + rest;
    CaptureAfterSpace(m1 + a, m2, b, m3, rest);
  }

  lemma ThirdCapture(m1: string, m2: string, m3: string, m4: string, m5: string,
                     a: string, b: string, c: string, d: string)
    requires ' ' !in m3 && !Contains(m1 + a + [' '] + m2 + b, m3)
    requires ' ' !in m4 && !Contains(m1 + a + [' '] + m2 + b + [' '] + m3 + c, m4)
    ensures Between(Marked(m1, m2, m3, m4, m5, a, b, c, d), m3, m4) == Some(c + [' '])
  {
    var q := m1 + a + [' '] + m2 + b + [' '] + m3 + c + [' '] + m4;
    var line := Marked(m1, m2, m3, m4, m5, a, b, c, d);
    var rest := d + [' '] + m5;
    assert line == q + rest;
    CaptureAfterSpace(m1 + a + [' '] + m2 + b, m3, c, m4, rest);
  }

  lemma FourthCapture(m1: string, m2: string, m3: string, m4: string, m5: string,
                      a: string, b: string, c: string, d: string)
    requires ' ' !in m4 && !Contains(m1 + a + [' '] + m2 + b + [' '] + m3 + c, m4)
    requires ' ' !in m5 && !Contains(m1 + a + [' '] + m2 + b + [' '] + m3 + c + [' '] + m4 + d, m5)
    ensures Between(Marked(m1, m2, m3, m4, m5, a, b, c, d), m4, m5) == Some(d + [' '])
  {
    var line := Marked(m1, m2, m3, m4, m5, a, b, c, d);
    assert line == line + [];
    CaptureAfterSpace(m1 + a + [' '] + m2 + b + [' '] + m3 + c, m4, d, m5, []);
  }

  /** Every line parsed, when every line parses. */
  function Parsed(lines: seq<string>, parse: string -> Result<Change, Fault>): (r: seq<Change>)
    requires forall k :: 0 <= k < |lines| ==> parse(lines[k]).Ok?
    ensures |r| == |lines| && forall k :: 0 <= k < |lines| ==> parse(lines[k]) == Ok(r[k])
  {
    seq(|lines|, k requires 0 <= k < |lines| && parse(lines[k]).Ok? => parse(lines[k]).value)
  }

  /** The lines of the history in order, each parsed by `parse`, the `Unknown`
      ones dropped; the first line that fails to parse aborts. */
  function ParseLines(lines: seq<string>, parse: string -> Result<Change, Fault>): (r: Result<seq<Change>, Fault>)
    ensures r.Ok? <==> forall k :: 0 <= k < |lines| ==> parse(lines[k]).Ok?
    ensures r.Ok? ==> r.value == WithoutType(Parsed(lines, parse), Unknown)
    ensures r.Err? ==> exists k :: 0 <= k < |lines| && parse(lines[k]) == Err(r.error) && forall j :: 0 <= j < k ==> parse(lines[j]).Ok?
    decreases |lines|
  {
    if |lines| == 0 then Ok([])
    else
      var n := |lines| - 1;
      assert forall k :: 0 <= k < n ==> lines[..n][k] == lines[k];
      match ParseLines(lines[..n], parse)
      case Err(f) => Err(f)
      case Ok(cs) =>
        match parse(lines[n])
        case Err(f) => assert parse(lines[n]) == Err(f); Err(f)
        case Ok(c) =>
          ParsedStep(lines, lines[..n], parse, cs, c);
          Ok(cs + (if c.changeType == Unknown then [] else [c]))
  }

  lemma ParsedStep(lines: seq<string>, front: seq<string>, parse: string -> Result<Change, Fault>, cs: seq<Change>, c: Change)
    requires |lines| > 0 && front == lines[..|lines| - 1]
    requires forall k :: 0 <= k < |front| ==> parse(front[k]).Ok?
    requires parse(lines[|lines| - 1]) == Ok(c)
    requires cs == WithoutType(Parsed(front, parse), Unknown)
    ensures forall k :: 0 <= k < |lines| ==> parse(lines[k]).Ok?
    ensures cs + (if c.changeType == Unknown then [] else [c]) == WithoutType(Parsed(lines, parse), Unknown)
  {
    var n := |lines| - 1;
    assert forall k :: 0 <= k < n ==> lines[..n][k] == lines[k];
    var ps := Parsed(lines, parse);
    assert ps[..n] == Parsed(lines[..n], parse);
  }

  /** `sub` is `cs` with some of its elements left out and the others kept
      in their order. */
  predicate Subsequence(sub: seq<Change>, cs: seq<Change>)
    decreases |cs|
  {
    |sub| <= |cs| &&
    (|sub| == 0 ||
     var n := |cs| - 1;
     if sub[|sub| - 1] == cs[n] then Subsequence(sub[..|sub| - 1], cs[..n]) else Subsequence(sub, cs[..n]))
  }

  /** The changes of one type, in order: each as many times as in `cs`. */
  function OfType(cs: seq<Change>, t: ChangeType): (r: seq<Change>)
    ensures forall c :: c in r <==> c in cs && c.changeType == t
  {
    if |cs| == 0 then []
    else
      var n := |cs| - 1;
      assert cs == cs[..n] + [cs[n]];
      OfType(cs[..n], t) + (if cs[n].changeType == t then [cs[n]] else [])
  }

  /** The changes of every other type, in order: each as many times as in `cs`. */
  function WithoutType(cs: seq<Change>, t: ChangeType): (r: seq<Change>)
    ensures forall c :: c in r <==> c in cs && c.changeType != t
  {
    if |cs| == 0 then []
    else
      var n := |cs| - 1;
      assert cs == cs[..n] + [cs[n]];
      WithoutType(cs[..n], t) + (if cs[n].changeType != t then [cs[n]] else [])
  }

  /** `OfType` keeps the changes of its type in order... */
  lemma {:induction false} OfTypeInOrder(cs: seq<Change>, t: ChangeType)
    ensures Subsequence(OfType(cs, t), cs)
  {
    if |cs| > 0 {
      var n := |cs| - 1;
      OfTypeInOrder(cs[..n], t);
      SubsequenceStep(OfType(cs, t), OfType(cs[..n], t), cs, cs[n].changeType == t);
    }
  }

  /** One step of a filter from the end: a subsequence of all but the last
      element, with that element appended or not, is a subsequence of the
      whole. */
  lemma SubsequenceStep(r: seq<Change>, b: seq<Change>, cs: seq<Change>, keep: bool)
    requires |cs| > 0 && Subsequence(b, cs[..|cs| - 1])
    requires r == b + (if keep then [cs[|cs| - 1]] else [])
    ensures Subsequence(r, cs)
  {
    if keep {
      assert r[..|r| - 1] == b;
    } else {
      assert r == b;
      SubsequenceExtend(r, cs);
    }
  }

  /** Dropping the last element keeps a subsequence a subsequence. */
  lemma {:induction false} SubsequenceDropLast(sub: seq<Change>, cs: seq<Change>)
    requires Subsequence(sub, cs) && |sub| > 0
    ensures Subsequence(sub[..|sub| - 1], cs)
    decreases |cs|, 1
  {
    var n := |cs| - 1;
    if sub[|sub| - 1] == cs[n] {
      SubsequenceExtend(sub[..|sub| - 1], cs);
    } else {
      SubsequenceDropLast(sub, cs[..n]);
      SubsequenceExtend(sub[..|sub| - 1], cs);
    }
  }

  /** A subsequence of all but the last element is a subsequence of the whole. */
  lemma {:induction false} SubsequenceExtend(sub: seq<Change>, cs: seq<Change>)
    requires |cs| > 0 && Subsequence(sub, cs[..|cs| - 1])
    ensures Subsequence(sub, cs)
    decreases |cs|, 0
  {
    var n := |cs| - 1;
    if |sub| > 0 && sub[|sub| - 1] == cs[n] {
      SubsequenceDropLast(sub, cs[..n]);
    }
  }

  /** ... and each as many times as in `cs`. */
  lemma {:induction false} OfTypeCounts(cs: seq<Change>, t: ChangeType)
    ensures forall c :: multiset(OfType(cs, t))[c] == if c.changeType == t then multiset(cs)[c] else 0
  {
    if |cs| > 0 {
      var n := |cs| - 1;
      OfTypeCounts(cs[..n], t);
      assert cs == cs[..n] + [cs[n]];
    }
  }

  /** `WithoutType` keeps the changes of the other types in order... */
  lemma {:induction false} WithoutTypeInOrder(cs: seq<Change>, t: ChangeType)
    ensures Subsequence(WithoutType(cs, t), cs)
  {
    if |cs| > 0 {
      var n := |cs| - 1;
      WithoutTypeInOrder(cs[..n], t);
      SubsequenceStep(WithoutType(cs, t), WithoutType(cs[..n], t), cs, cs[n].changeType != t);
    }
  }

  /** ... and each as many times as in `cs`. */
  lemma {:induction false} WithoutTypeCounts(cs: seq<Change>, t: ChangeType)
    ensures forall c :: multiset(WithoutType(cs, t))[c] == if c.changeType != t then multiset(cs)[c] else 0
  {
    if |cs| > 0 {
      var n := |cs| - 1;
      WithoutTypeCounts(cs[..n], t);
      assert cs == cs[..n] + [cs[n]];
    }
  }

  /** The release being made now, which is not yet in the history. */
  function PendingRelease(version: Versions.Version, now: int): (r: Change)
    ensures r.changeType == Version && r.date == now && r.link.None?
    ensures |VersionCommitMessage| <= |r.message| && r.message[..|VersionCommitMessage|] == VersionCommitMessage
    ensures r.message == VersionCommitMessage + Versions.ToString(version)
    ensures r.commitId == "HEAD" && r.author == "GitScribe"
  {
    Change(VersionCommitMessage + Versions.ToString(version), "HEAD", None, "GitScribe", Version, now)
  }

  /** After the version commit subject, the message of the release being made
      holds the three numbers of the version, separated by dots. */
  lemma PendingReleaseMessage(version: Versions.Version, now: int)
    ensures var m := PendingRelease(version, now).message;
      && |VersionCommitMessage| <= |m|
      && Split(m[|VersionCommitMessage|..], '.')
         == [Versions.IntToString(version.major), Versions.IntToString(version.minor), Versions.IntToString(version.patch)]
  {
    var m := PendingRelease(version, now).message;
    assert m[|VersionCommitMessage|..] == Versions.ToString(version);
  }

  // ---------------------------------------------------------------------
  // Sorting the releases newest first: `sort_by`, a stable sort

  predicate NewestFirst(cs: seq<Change>) {
    forall i, j :: 0 <= i < j < |cs| ==> cs[i].date >= cs[j].date
  }

  /** The changes dated `d`, in order. */
  function WithDate(cs: seq<Change>, d: int): seq<Change>
  {
    if |cs| == 0 then []
    else WithDate(cs[..|cs| - 1], d) + (if cs[|cs| - 1].date == d then [cs[|cs| - 1]] else [])
  }

  lemma WithDateAppend(cs: seq<Change>, c: Change, d: int)
    ensures WithDate(cs + [c], d) == WithDate(cs, d) + (if c.date == d then [c] else [])
  {
    assert (cs + [c])[..|cs|] == cs;
  }

  /** Places `c` into a newest-first list, after every change at least as
      new as it. */
  function InsertByDate(sorted: seq<Change>, c: Change): (r: seq<Change>)
    requires NewestFirst(sorted)
    ensures NewestFirst(r)
    ensures multiset(r) == multiset(sorted) + multiset{c}
    ensures forall d :: WithDate(r, d) == WithDate(sorted, d) + (if c.date == d then [c] else [])
    decreases |sorted|
  {
    if |sorted| == 0 then [c]
    else
      var n := |sorted| - 1;
      if sorted[n].date >= c.date then
        WithDateAppendAll(sorted, c);
        sorted + [c]
      else
        var front := InsertByDate(sorted[..n], c);
        InsertStep(sorted, c, front);
        front + [sorted[n]]
  }

  lemma WithDateAppendAll(cs: seq<Change>, c: Change)
    ensures forall d :: WithDate(cs + [c], d) == WithDate(cs, d) + (if c.date == d then [c] else [])
  {
    forall d ensures WithDate(cs + [c], d) == WithDate(cs, d) + (if c.date == d then [c] else []) {
      WithDateAppend(cs, c, d);
    }
  }

  /** The step of `InsertByDate` that moves the last element behind `c`. */
  lemma InsertStep(sorted: seq<Change>, c: Change, front: seq<Change>)
    requires |sorted| > 0 && NewestFirst(sorted) && sorted[|sorted| - 1].date < c.date
    requires NewestFirst(front)
    requires multiset(front) == multiset(sorted[..|sorted| - 1]) + multiset{c}
    requires forall d :: WithDate(front, d) == WithDate(sorted[..|sorted| - 1], d) + (if c.date == d then [c] else [])
    ensures NewestFirst(front + [sorted[|sorted| - 1]])
    ensures multiset(front + [sorted[|sorted| - 1]]) == multiset(sorted) + multiset{c}
    ensures forall d :: WithDate(front + [sorted[|sorted| - 1]], d) == WithDate(sorted, d) + (if c.date == d then [c] else [])
  {
    FrontNewer(sorted, c, front);
    NewestFirstAppend(front, sorted[|sorted| - 1]);
    InsertStepCount(sorted, c, front);
    InsertStepDates(sorted, c, front);
  }

  lemma InsertStepCount(sorted: seq<Change>, c: Change, front: seq<Change>)
    requires |sorted| > 0
    requires multiset(front) == multiset(sorted[..|sorted| - 1]) + multiset{c}
    ensures multiset(front + [sorted[|sorted| - 1]]) == multiset(sorted) + multiset{c}
  {
    assert sorted == sorted[..|sorted| - 1] + [sorted[|sorted| - 1]];
  }

  lemma InsertStepDates(sorted: seq<Change>, c: Change, front: seq<Change>)
    requires |sorted| > 0 && sorted[|sorted| - 1].date < c.date
    requires forall d :: WithDate(front, d) == WithDate(sorted[..|sorted| - 1], d) + (if c.date == d then [c] else [])
    ensures forall d :: WithDate(front + [sorted[|sorted| - 1]], d) == WithDate(sorted, d) + (if c.date == d then [c] else [])
  {
    var n := |sorted| - 1;
    var last := sorted[n];
    assert sorted == sorted[..n] + [last];
    forall d ensures WithDate(front + [last], d) == WithDate(sorted, d) + (if c.date == d then [c] else []) {
      WithDateAppend(front, last, d);
      WithDateAppend(sorted[..n], last, d);
    }
  }

  lemma NewestFirstAppend(cs: seq<Change>, c: Change)
    requires NewestFirst(cs) && forall i :: 0 <= i < |cs| ==> cs[i].date >= c.date
    ensures NewestFirst(cs + [c])
  {
  }

  /** Everything `c` was inserted among is at least as new as the last
      element that `c` is newer than. */
  lemma FrontNewer(sorted: seq<Change>, c: Change, front: seq<Change>)
    requires |sorted| > 0 && NewestFirst(sorted) && sorted[|sorted| - 1].date < c.date
    requires multiset(front) == multiset(sorted[..|sorted| - 1]) + multiset{c}
    ensures forall i :: 0 <= i < |front| ==> front[i].date >= sorted[|sorted| - 1].date
  {
    var n := |sorted| - 1;
    forall i | 0 <= i < |front| ensures front[i].date >= sorted[n].date {
      assert front[i] in multiset(front);
      if front[i] != c {
        assert front[i] in multiset(sorted[..n]);
        var j :| 0 <= j < n && sorted[..n][j] == front[i];
        assert sorted[j] == front[i];
      }
    }
  }

  /** `sort_by(|a, b| b.date.cmp(&a.date))`: newest first, and changes with
      the same date keep their relative order. */
  function SortNewestFirst(cs: seq<Change>): (r: seq<Change>)
    ensures NewestFirst(r)
    ensures multiset(r) == multiset(cs)
    ensures forall d :: WithDate(r, d) == WithDate(cs, d)
  {
    if |cs| == 0 then []
    else
      var n := |cs| - 1;
      var r := InsertByDate(SortNewestFirst(cs[..n]), cs[n]);
      assert cs == cs[..n] + [cs[n]];
      r
  }

  // ---------------------------------------------------------------------
  // The version named by a release commit: `^.*(\d+\.\d+\.\d+)$`

  /** Three non-empty runs of digits. */
  predicate ThreeNumbers(parts: seq<string>) {
    |parts| == 3 && forall k :: 0 <= k < 3 ==> |parts[k]| > 0 && Versions.AllDigits(parts[k])
  }

  /** Digits, a dot, digits, a dot, digits, and nothing else. */
  predicate IsVersionForm(t: string) {
    ThreeNumbers(Split(t, '.'))
  }

  lemma ThreeNumbersHead(x: string, y: string, rest: seq<string>)
    requires ThreeNumbers([x] + rest) && |y| > 0 && Versions.AllDigits(y)
    ensures ThreeNumbers([y] + rest)
  {
    assert ([y] + rest)[1..] == rest == ([x] + rest)[1..];
  }

  lemma EmptyHeadNotNumbers(rest: seq<string>)
    ensures !ThreeNumbers([""] + rest)
  {
    assert ([""] + rest)[0] == "";
  }

  /** The latest start at or before `i` of a suffix that has the form
      `form` (a backtracking regex engine trying the greedy `.*` longest
      first). */
  function LatestStart(m: string, i: nat, form: string -> bool): (r: Option<nat>)
    requires i <= |m|
    ensures r.Some? ==> r.value <= i && form(m[r.value..])
    ensures r.Some? ==> forall j :: r.value < j <= i ==> !form(m[j..])
    ensures r.None? ==> forall j :: 0 <= j <= i ==> !form(m[j..])
    decreases i
  {
    if form(m[i..]) then Some(i)
    else if i == 0 then None
    else LatestStart(m, i - 1, form)
  }

  /** `parse_change_for_version`. `^` and `$` anchor the whole message and
      `.` stops at a line break; the greedy `.*` leaves the capture the
      shortest suffix in version form. */
  function VersionKey(message: string): (r: Option<string>)
    ensures r.Some? ==> '\n' !in message && IsVersionForm(r.value)
    ensures r.Some? ==> |r.value| <= |message| && r.value == message[|message| - |r.value|..]
    ensures r.Some? ==> forall j :: |message| - |r.value| < j <= |message| ==> !IsVersionForm(message[j..])
    ensures r.None? ==> '\n' in message || forall j :: 0 <= j <= |message| ==> !IsVersionForm(message[j..])
  {
    if '\n' in message then None
    else match LatestStart(message, |message|, IsVersionForm)
      case None => None
      case Some(i) => Some(message[i..])
  }

  lemma DigitsHaveNoDot(s: string)
    ensures Versions.AllDigits(s) ==> '.' !in s && '\n' !in s
  {
    if '.' in s || '\n' in s {
      var k :| 0 <= k < |s| && (s[k] == '.' || s[k] == '\n');
    }
  }

  /** Dropping a digit from a first part of two or more digits leaves a
      string still in version form. */
  lemma DropLeadingDigit(t: string)
    ensures IsVersionForm(t) && |Split(t, '.')[0]| >= 2 ==> IsVersionForm(t[1..])
  {
    if IsVersionForm(t) && |Split(t, '.')[0]| >= 2 {
      var i := IndexOfChar(t, '.').value;
      SplitAt(t, i, '.');
      var u := t[1..];
      DropFirstSlices(t, i);
      SplitAt(u, i - 1, '.');
      DigitsOfSuffix(t[..i]);
      ThreeNumbersHead(t[..i], t[..i][1..], Split(t[i + 1..], '.'));
    }
  }

  lemma DropFirstSlices(t: string, i: nat)
    requires 1 < i < |t| && t[i] == '.' && '.' !in t[..i]
    ensures t[1..][i - 1] == '.' && '.' !in t[1..][..i - 1]
    ensures t[1..][..i - 1] == t[..i][1..] && t[1..][i..] == t[i + 1..]
  {
    assert t[1..][..i - 1] == t[..i][1..];
    forall x | x in t[..i][1..] ensures x in t[..i] {
      var k :| 0 <= k < i - 1 && t[..i][1..][k] == x;
      assert t[..i][k + 1] == x;
    }
  }

  lemma DigitsOfSuffix(s: string)
    requires |s| > 0
    ensures Versions.AllDigits(s) ==> Versions.AllDigits(s[1..])
  {
    if Versions.AllDigits(s) {
      forall k | 0 <= k < |s| - 1 ensures IsAsciiDigit(s[1..][k]) {
        assert s[1..][k] == s[k + 1];
      }
    }
  }

  /** The greedy `.*` keeps exactly one digit of the major number. */
  lemma VersionKeyOneMajorDigit(m: string)
    ensures VersionKey(m).Some? ==> |Split(VersionKey(m).value, '.')[0]| == 1 && VersionKey(m).value[1] == '.'
  {
    if VersionKey(m).Some? {
      var t := VersionKey(m).value;
      var j := |m| - |t|;
      FirstPart(t);
      DropLeadingDigit(t);
      assert t[1..] == m[j + 1..];
    }
  }

  /** The first part of a version form is the text before its first dot. */
  lemma FirstPart(t: string)
    ensures IsVersionForm(t) ==> |Split(t, '.')[0]| >= 1
    ensures IsVersionForm(t) && |Split(t, '.')[0]| == 1 ==> |t| > 1 && t[1] == '.'
  {
    match IndexOfChar(t, '.') {
    case None =>
      SplitWithout(t, '.');
    case Some(i) =>
      SplitAt(t, i, '.');
      assert |t[..i]| == i;
    }
  }

  /** No proper suffix of `d.b.c` is in version form. */
  lemma NoVersionFormInside(d: char, b: string, c: string, j: nat)
    requires Versions.AllDigits(b) && Versions.AllDigits(c)
    requires 1 <= j <= |[d] + "." + b + "." + c|
    ensures !IsVersionForm(([d] + "." + b + "." + c)[j..])
  {
    var t := [d] + "." + b + "." + c;
    DigitsHaveNoDot(b);
    DigitsHaveNoDot(c);
    if j == 1 {
      var u := t[j..];
      assert u[0] == '.' && u[..0] == "";
      SplitAt(u, 0, '.');
      EmptyHeadNotNumbers(Split(u[1..], '.'));
    } else if j <= |b| + 2 {
      var b' := b[j - 2..];
      assert t[j..] == b' + "." + c;
      assert '.' !in b' by {
        forall x | x in b' ensures x != '.' {
          var k :| 0 <= k < |b'| && b'[k] == x;
          assert b[j - 2 + k] == x;
        }
      }
      SplitConcat(b', c, '.');
      SplitWithout(b', '.');
      SplitWithout(c, '.');
    } else {
      var c' := c[j - |b| - 3..];
      assert t[j..] == c';
      assert '.' !in c' by {
        forall x | x in c' ensures x != '.' {
          var k :| 0 <= k < |c'| && c'[k] == x;
          assert c[j - |b| - 3 + k] == x;
        }
      }
      SplitWithout(c', '.');
    }
  }

  lemma MessageHasNoLineBreak()
    ensures '\n' !in VersionCommitMessage
  {
  }

  /** The key is the suffix in version form past which no shorter suffix is
      in version form. */
  lemma VersionKeyFromSuffix(m: string, s0: nat)
    requires s0 <= |m| && '\n' !in m && IsVersionForm(m[s0..])
    requires forall j :: s0 < j <= |m| ==> !IsVersionForm(m[j..])
    ensures VersionKey(m) == Some(m[s0..])
  {
  }

  /** One digit, a dot, digits, a dot, digits. */
  function VersionTail(d: char, b: string, c: string): string {
    [d] + "." + b + "." + c
  }

  /** The key of a message that ends in one digit, a dot, digits, a dot and
      digits is exactly that ending. */
  lemma VersionKeyAt(pre: string, d: char, b: string, c: string)
    requires IsAsciiDigit(d) && |b| > 0 && |c| > 0 && Versions.AllDigits(b) && Versions.AllDigits(c)
    requires '\n' !in pre
    ensures VersionKey(pre + VersionTail(d, b, c)) == Some(VersionTail(d, b, c))
  {
    var t := VersionTail(d, b, c);
    var m := pre + t;
    VersionFormOf(d, b, c);
    assert m[|pre|..] == t;
    NoVersionFormAfter(pre, d, b, c);
    VersionTailHasNoLineBreak(d, b, c);
    VersionKeyFromSuffix(m, |pre|);
  }

  lemma VersionTailHasNoLineBreak(d: char, b: string, c: string)
    requires IsAsciiDigit(d) && Versions.AllDigits(b) && Versions.AllDigits(c)
    ensures '\n' !in VersionTail(d, b, c)
  {
    DigitsHaveNoDot(b);
    DigitsHaveNoDot(c);
  }

  lemma NoVersionFormAfter(pre: string, d: char, b: string, c: string)
    requires Versions.AllDigits(b) && Versions.AllDigits(c)
    ensures forall j :: |pre| < j <= |pre + VersionTail(d, b, c)| ==> !IsVersionForm((pre + VersionTail(d, b, c))[j..])
  {
    var t := VersionTail(d, b, c);
    var m := pre + t;
    forall j | |pre| < j <= |m| ensures !IsVersionForm(m[j..]) {
      NoVersionFormInside(d, b, c, j - |pre|);
      assert m[j..] == t[j - |pre|..];
    }
  }

  lemma VersionFormOf(d: char, b: string, c: string)
    requires IsAsciiDigit(d) && |b| > 0 && |c| > 0 && Versions.AllDigits(b) && Versions.AllDigits(c)
    ensures IsVersionForm(VersionTail(d, b, c))
  {
    DigitsHaveNoDot(b);
    DigitsHaveNoDot(c);
    JoinThree([d], b, c, '.');
    SplitJoin([[d], b, c], '.');
  }

  /** The key of the pending release: the units digit of the major number,
      then minor and patch. */
  lemma PendingReleaseKey(version: Versions.Version, now: int)
    requires version.minor >= 0 && version.patch >= 0
    ensures VersionKey(PendingRelease(version, now).message) ==
      Some([Versions.Digit(Versions.Magnitude(version.major) % 10)]
           + "." + Versions.IntToString(version.minor) + "." + Versions.IntToString(version.patch))
    ensures 0 <= version.major < 10 ==> VersionKey(PendingRelease(version, now).message) == Some(Versions.ToString(version))
  {
    var a := Versions.IntToString(version.major);
    var b := Versions.IntToString(version.minor);
    var c := Versions.IntToString(version.patch);
    Versions.LastDigitOf(version.major);
    Versions.SmallIntToString(version.major);
    Versions.NatRendersDigits(version.minor);
    Versions.NatRendersDigits(version.patch);
    MessageAsVersionTail(a, b, c);
    MessageHasNoLineBreak();
    VersionKeyAt(VersionCommitMessage + a[..|a| - 1], a[|a| - 1], b, c);
  }

  lemma MessageAsVersionTail(a: string, b: string, c: string)
    requires |a| > 0
    ensures VersionCommitMessage + (a + "." + b + "." + c)
         == (VersionCommitMessage + a[..|a| - 1]) + VersionTail(a[|a| - 1], b, c)
  {
    assert a == a[..|a| - 1] + [a[|a| - 1]];
  }

  /** A two-digit major version loses its first digit: the release commit of
      `10.2.3` is filed under `0.2.3`. */
  lemma VersionKeyDropsMajorDigits()
    ensures VersionKey(VersionCommitMessage + "10.2.3") == Some("0.2.3")
  {
    var pre := VersionCommitMessage + "1";
    assert "0.2.3" == VersionTail('0', "2", "3");
    assert VersionCommitMessage + "10.2.3" == pre + "0.2.3";
    MessageHasNoLineBreak();
    VersionKeyAt(pre, '0', "2", "3");
  }

  // ---------------------------------------------------------------------
  // Grouping the changes under their releases: `get_changes`

  /** An `IndexMap<String, Vec<Change>>`: its entries in insertion order. */
  type ChangeMap = seq<(string, seq<Change>)>

  predicate Distinct(ks: seq<string>) {
    forall p, q :: 0 <= p < q < |ks| ==> ks[p] != ks[q]
  }

  /** The position of key `k` in the map. */
  function KeyIndex(m: ChangeMap, k: string): (r: Option<nat>)
    ensures r.Some? ==> r.value < |m| && m[r.value].0 == k
    ensures r.Some? ==> forall q :: 0 <= q < r.value ==> m[q].0 != k
    ensures r.None? <==> forall q :: 0 <= q < |m| ==> m[q].0 != k
  {
    if |m| == 0 then None
    else if m[0].0 == k then Some(0)
    else match KeyIndex(m[1..], k)
      case None => None
      case Some(p) => Some(p + 1)
  }

  /** `IndexMap::insert`: an existing key keeps its place and takes the new
      value; a new key goes last. */
  function Insert(m: ChangeMap, k: string, v: seq<Change>): (r: ChangeMap)
    ensures |r| == if KeyIndex(m, k).Some? then |m| else |m| + 1
    ensures forall q :: 0 <= q < |m| ==> r[q].0 == m[q].0
    ensures KeyIndex(r, k).Some? && r[KeyIndex(r, k).value].1 == v
    ensures forall q :: 0 <= q < |m| && m[q].0 != k ==> r[q] == m[q]
  {
    match KeyIndex(m, k)
    case Some(p) =>
      var r := m[p := (k, v)];
      assert r[p].0 == k;
      r
    case None =>
      var r := m + [(k, v)];
      assert r[|m|].0 == k;
      r
  }

  /** The keys in order of first occurrence, each once. */
  function Dedup(ks: seq<string>): (r: seq<string>)
    ensures forall x :: x in r <==> x in ks
    ensures Distinct(r)
    ensures |ks| > 0 ==> |r| > 0 && r[0] == ks[0]
  {
    if |ks| == 0 then []
    else
      var d := Dedup(ks[..|ks| - 1]);
      var k := ks[|ks| - 1];
      if k in d then d else d + [k]
  }

  /** The position of the first occurrence of `k`. */
  function FirstAt(ks: seq<string>, k: string): (r: nat)
    requires k in ks
    ensures r < |ks| && ks[r] == k
    ensures forall i :: 0 <= i < r ==> ks[i] != k
  {
    if ks[0] == k then 0 else 1 + FirstAt(ks[1..], k)
  }

  lemma FirstAtIs(ks: seq<string>, k: string, i: nat)
    requires i < |ks| && ks[i] == k
    requires forall j :: 0 <= j < i ==> ks[j] != k
    ensures FirstAt(ks, k) == i
  {
  }

  /** Dedup keeps the keys in the order in which each first occurs. */
  lemma {:induction false} DedupInFirstOrder(ks: seq<string>)
    ensures forall p, q :: 0 <= p < q < |Dedup(ks)| ==> FirstAt(ks, Dedup(ks)[p]) < FirstAt(ks, Dedup(ks)[q])
  {
    if |ks| > 0 {
      var n := |ks| - 1;
      DedupInFirstOrder(ks[..n]);
      assert ks == ks[..n] + [ks[n]];
      FirstOrderStep(ks[..n], ks[n], Dedup(ks[..n]), Dedup(ks));
    }
  }

  /** Appending `k` to the keys keeps the first occurrences of the keys
      before it, and a new key occurs first after all of them. */
  lemma FirstOrderStep(front: seq<string>, k: string, d: seq<string>, r: seq<string>)
    requires forall x :: x in d ==> x in front
    requires forall p, q :: 0 <= p < q < |d| ==> FirstAt(front, d[p]) < FirstAt(front, d[q])
    requires r == d || (k !in front && r == d + [k])
    ensures forall p, q :: 0 <= p < q < |r| ==> FirstAt(front + [k], r[p]) < FirstAt(front + [k], r[q])
  {
    var ks := front + [k];
    forall x | x in front ensures FirstAt(ks, x) == FirstAt(front, x) < |front| {
      FirstAtIs(ks, x, FirstAt(front, x));
    }
    if r != d {
      FirstAtIs(ks, k, |front|);
    }
  }

  /** The key of every release, in order. */
  function ReleaseKeys(rs: seq<Change>): (r: seq<Option<string>>)
    ensures |r| == |rs|
  {
    seq(|rs|, j requires 0 <= j < |rs| => VersionKey(rs[j].message))
  }

  /** The position of the first missing key. */
  function FirstMissing(ks: seq<Option<string>>): (r: Option<nat>)
    ensures r.Some? ==> r.value < |ks| && ks[r.value].None?
    ensures r.Some? ==> forall j :: 0 <= j < r.value ==> ks[j].Some?
    ensures r.None? <==> forall j :: 0 <= j < |ks| ==> ks[j].Some?
  {
    if |ks| == 0 then None
    else if ks[0].None? then Some(0)
    else match FirstMissing(ks[1..])
      case None => None
      case Some(j) => Some(j + 1)
  }

  /** The keys, all present, unwrapped. */
  function Present(ks: seq<Option<string>>): (r: seq<string>)
    requires forall j :: 0 <= j < |ks| ==> ks[j].Some?
    ensures |r| == |ks|
    ensures forall j :: 0 <= j < |ks| ==> ks[j] == Some(r[j])
  {
    seq(|ks|, j requires 0 <= j < |ks| && ks[j].Some? => ks[j].value)
  }

  /** One empty bucket per key. */
  function EmptyBuckets(ks: seq<string>): (r: ChangeMap)
    ensures |r| == |ks|
    ensures forall p :: 0 <= p < |ks| ==> r[p] == (ks[p], [])
  {
    seq(|ks|, p requires 0 <= p < |ks| => (ks[p], []))
  }

  /** `version_changes.iter().filter(|v| v.date >= date).min_by(date)`: the
      first of the earliest releases dated at or after `date`. */
  function NearestRelease(rs: seq<Change>, date: int): (r: Option<nat>)
    ensures r.Some? ==> r.value < |rs| && rs[r.value].date >= date
    ensures r.Some? ==> forall j :: 0 <= j < |rs| && rs[j].date >= date ==> rs[r.value].date <= rs[j].date
    ensures r.Some? ==> forall j :: 0 <= j < r.value && rs[j].date >= date ==> rs[r.value].date < rs[j].date
    ensures r.None? <==> forall j :: 0 <= j < |rs| ==> rs[j].date < date
  {
    if |rs| == 0 then None
    else
      var n := |rs| - 1;
      match NearestRelease(rs[..n], date)
      case None => if rs[n].date >= date then Some(n) else None
      case Some(j) => if rs[n].date >= date && rs[n].date < rs[j].date then Some(n) else Some(j)
  }

  /** The key of the release a change is filed under. */
  function AssignedKey(rs: seq<Change>, ks: seq<Option<string>>, c: Change): Option<string>
    requires |ks| == |rs|
  {
    match NearestRelease(rs, c.date)
    case None => None
    case Some(j) => ks[j]
  }

  /** The key each change is filed under. */
  function Filing(rs: seq<Change>, ks: seq<Option<string>>, cs: seq<Change>): (r: seq<Option<string>>)
    requires |ks| == |rs|
    ensures |r| == |cs|
  {
    if |cs| == 0 then []
    else Filing(rs, ks, cs[..|cs| - 1]) + [AssignedKey(rs, ks, cs[|cs| - 1])]
  }

  /** The changes filed under key `k`, in order. */
  function Bucket(cs: seq<Change>, tags: seq<Option<string>>, k: string): seq<Change>
    requires |tags| == |cs|
  {
    if |cs| == 0 then []
    else
      var n := |cs| - 1;
      Bucket(cs[..n], tags[..n], k) + (if tags[n] == Some(k) then [cs[n]] else [])
  }

  /** A bucket keeps the order of the changes it takes from `cs`. */
  lemma {:induction false} BucketInOrder(cs: seq<Change>, tags: seq<Option<string>>, k: string)
    requires |tags| == |cs|
    ensures Subsequence(Bucket(cs, tags, k), cs)
  {
    if |cs| > 0 {
      var n := |cs| - 1;
      BucketInOrder(cs[..n], tags[..n], k);
      SubsequenceStep(Bucket(cs, tags, k), Bucket(cs[..n], tags[..n], k), cs, tags[n] == Some(k));
    }
  }

  /** Every key in `keys` with its bucket. */
  function Groups(keys: seq<string>, cs: seq<Change>, tags: seq<Option<string>>): (r: ChangeMap)
    requires |tags| == |cs|
    ensures |r| == |keys|
    ensures forall p :: 0 <= p < |keys| ==> r[p] == (keys[p], Bucket(cs, tags, keys[p]))
  {
    seq(|keys|, p requires 0 <= p < |keys| => (keys[p], Bucket(cs, tags, keys[p])))
  }

  /** Some release is dated at or after `date`. */
  predicate Releasable(rs: seq<Change>, date: int) {
    exists j :: 0 <= j < |rs| && rs[j].date >= date
  }

  /** The first change that no release is dated at or after. */
  function FirstUnreleased(cs: seq<Change>, rs: seq<Change>): (r: Option<nat>)
    ensures r.Some? ==> r.value < |cs| && !Releasable(rs, cs[r.value].date)
    ensures r.Some? ==> forall i :: 0 <= i < r.value ==> Releasable(rs, cs[i].date)
    ensures r.None? <==> forall i :: 0 <= i < |cs| ==> Releasable(rs, cs[i].date)
  {
    if |cs| == 0 then None
    else if !Releasable(rs, cs[0].date) then Some(0)
    else match FirstUnreleased(cs[1..], rs)
      case None => None
      case Some(i) => Some(i + 1)
  }

  /** The releases in the history and the one being made, newest first. */
  function Releases(changes: seq<Change>, version: Versions.Version, now: int): seq<Change>
  {
    SortNewestFirst(OfType(changes, Version) + [PendingRelease(version, now)])
  }

  /** The non-empty lines of the log, each parsed. */
  function ParseLog(log: string, repo: Option<string>, parseDate: string -> Option<int>): Result<seq<Change>, Fault>
  {
    ParseLines(NonEmptyLines(log), line => ParseChange(line, repo, parseDate))
  }

  /** The release keys, each with the ordinary changes filed under it; a
      release without a version, then a change without a release, aborts. */
  function Grouping(rs: seq<Change>, ordinary: seq<Change>): Result<ChangeMap, Fault>
  {
    var ks := ReleaseKeys(rs);
    match FirstMissing(ks)
    case Some(i) => Err(NoVersionInMessage(rs[i].message))
    case None =>
      match FirstUnreleased(ordinary, rs)
      case Some(i) => Err(NoReleaseAfter(ordinary[i].commitId))
      case None => Ok(Groups(Dedup(Present(ks)), ordinary, Filing(rs, ks, ordinary)))
  }

  /** The releases of the history and the one being made, with the other
      changes filed under them. */
  function ChangeGroups(changes: seq<Change>, version: Versions.Version, now: int): Result<ChangeMap, Fault>
  {
    Grouping(Releases(changes, version, now), WithoutType(changes, Version))
  }

  /** The whole of `get_changes` on the text of the log. */
  function ChangeLog(log: string, repo: Option<string>, parseDate: string -> Option<int>,
                     version: Versions.Version, now: int): (r: Result<ChangeMap, Fault>)
    ensures r.Ok? ==> forall k :: 0 <= k < |NonEmptyLines(log)| ==> ParseChange(NonEmptyLines(log)[k], repo, parseDate).Ok?
    ensures r.Ok? ==> |r.value| > 0
  {
    ChangeLogHasPending(log, repo, parseDate, version, now);
    match ParseLog(log, repo, parseDate)
    case Err(f) => Err(f)
    case Ok(changes) => ChangeGroups(changes, version, now)
  }

  /** The release being made always brings a key, so a grouping that
      succeeds is never empty. */
  lemma ChangeLogHasPending(log: string, repo: Option<string>, parseDate: string -> Option<int>,
                            version: Versions.Version, now: int)
    ensures ParseLog(log, repo, parseDate).Ok? && ChangeGroups(ParseLog(log, repo, parseDate).value, version, now).Ok? ==>
      |ChangeGroups(ParseLog(log, repo, parseDate).value, version, now).value| > 0
  {
    if ParseLog(log, repo, parseDate).Ok? {
      var changes := ParseLog(log, repo, parseDate).value;
      var rs := Releases(changes, version, now);
      assert |multiset(rs)| == |multiset(OfType(changes, Version) + [PendingRelease(version, now)])|;
      GroupingKeys(rs, WithoutType(changes, Version));
    }
  }

  /** Inserting a key with an empty bucket into the empty buckets of some
      keys gives the empty buckets of the keys with that one added. */
  lemma InsertKeyStep(keys: seq<string>, k: string)
    ensures Insert(EmptyBuckets(Dedup(keys)), k, []) == EmptyBuckets(Dedup(keys + [k]))
  {
    assert (keys + [k])[..|keys|] == keys;
    var d := Dedup(keys);
    if k in d {
      InsertListedKey(d, k);
    } else {
      InsertNewKey(d, k);
    }
  }

  lemma InsertListedKey(d: seq<string>, k: string)
    requires k in d
    ensures Insert(EmptyBuckets(d), k, []) == EmptyBuckets(d)
  {
    var m := EmptyBuckets(d);
    var q :| 0 <= q < |d| && d[q] == k;
    assert m[q].0 == k;
    var p := KeyIndex(m, k).value;
    assert m[p := (k, [])] == m;
  }

  lemma InsertNewKey(d: seq<string>, k: string)
    requires k !in d
    ensures Insert(EmptyBuckets(d), k, []) == EmptyBuckets(d + [k])
  {
    assert KeyIndex(EmptyBuckets(d), k).None?;
  }

  lemma PresentPrefix(ks: seq<Option<string>>, i: nat)
    requires i < |ks| && forall j :: 0 <= j <= i ==> ks[j].Some?
    ensures Present(ks[..i + 1]) == Present(ks[..i]) + [ks[i].value]
  {
  }

  lemma FirstMissingAt(ks: seq<Option<string>>, i: nat)
    requires i < |ks| && ks[i].None? && forall j :: 0 <= j < i ==> ks[j].Some?
    ensures FirstMissing(ks) == Some(i)
  {
  }

  lemma FirstUnreleasedAt(cs: seq<Change>, rs: seq<Change>, i: nat)
    requires i < |cs| && !Releasable(rs, cs[i].date)
    requires FirstUnreleased(cs[..i], rs).None?
    ensures FirstUnreleased(cs, rs) == Some(i)
  {
    forall j | 0 <= j < i ensures Releasable(rs, cs[j].date) {
      assert cs[..i][j] == cs[j];
    }
  }

  lemma AllReleasedStep(cs: seq<Change>, rs: seq<Change>, i: nat)
    requires i < |cs| && Releasable(rs, cs[i].date)
    requires FirstUnreleased(cs[..i], rs).None?
    ensures FirstUnreleased(cs[..i + 1], rs).None?
  {
    var t := cs[..i + 1];
    forall j | 0 <= j < |t| ensures Releasable(rs, t[j].date) {
      if j < i {
        assert cs[..i][j] == t[j];
      }
    }
  }

  lemma ReleaseKeyListed(ks: seq<Option<string>>, j: nat)
    requires j < |ks| && forall i :: 0 <= i < |ks| ==> ks[i].Some?
    ensures ks[j].value in Dedup(Present(ks))
  {
    assert Present(ks)[j] == ks[j].value;
  }

  lemma KeyInGroups(keys: seq<string>, cs: seq<Change>, tags: seq<Option<string>>, k: string)
    requires |tags| == |cs| && k in keys
    ensures KeyIndex(Groups(keys, cs, tags), k).Some?
    ensures keys[KeyIndex(Groups(keys, cs, tags), k).value] == k
  {
    var q :| 0 <= q < |keys| && keys[q] == k;
    assert Groups(keys, cs, tags)[q].0 == k;
  }

  /** Filing one more change adds it to its own bucket only. */
  lemma GroupsPush(keys: seq<string>, cs: seq<Change>, tags: seq<Option<string>>, c: Change, p: nat)
    requires |tags| == |cs| && Distinct(keys) && p < |keys|
    ensures Groups(keys, cs + [c], tags + [Some(keys[p])])
         == Groups(keys, cs, tags)[p := (keys[p], Bucket(cs, tags, keys[p]) + [c])]
  {
    var before, after := Groups(keys, cs, tags), Groups(keys, cs + [c], tags + [Some(keys[p])]);
    forall q | 0 <= q < |keys|
      ensures after[q] == before[p := (keys[p], Bucket(cs, tags, keys[p]) + [c])][q]
    {
      BucketAppend(cs, tags, c, Some(keys[p]), keys[q]);
      assert q != p ==> keys[q] != keys[p];
    }
  }

  lemma BucketAppend(cs: seq<Change>, tags: seq<Option<string>>, c: Change, t: Option<string>, k: string)
    requires |tags| == |cs|
    ensures t == Some(k) ==> Bucket(cs + [c], tags + [t], k) == Bucket(cs, tags, k) + [c]
    ensures t != Some(k) ==> Bucket(cs + [c], tags + [t], k) == Bucket(cs, tags, k)
  {
    assert (cs + [c])[..|cs|] == cs;
    assert (tags + [t])[..|tags|] == tags;
    assert Bucket(cs, tags, k) + [] == Bucket(cs, tags, k);
  }

  /** `get_changes`, with the log text, the date parser and the clock as
      inputs. */
  method GetChanges(log: string, repo: Option<string>, parseDate: string -> Option<int>,
                    version: Versions.Version, now: int)
    returns (r: Result<ChangeMap, Fault>)
    ensures r == ChangeLog(log, repo, parseDate, version, now)
  {
    var parsed := ParseLog(log, repo, parseDate);
    if parsed.Err? {
      return Err(parsed.error);
    }
    var changes := parsed.value;
    var versionChanges := OfType(changes, Version);
    versionChanges := versionChanges + [PendingRelease(version, now)];
    versionChanges := SortNewestFirst(versionChanges);
    changes := WithoutType(changes, Version);
    var changeMap := InsertReleaseKeys(versionChanges);
    if changeMap.Err? {
      return changeMap;
    }
    r := FileChanges(changeMap.value, versionChanges, changes);
  }

  /** The first loop of `get_changes`: one empty bucket per release key, in
      the order of the releases. */
  method InsertReleaseKeys(versionChanges: seq<Change>) returns (r: Result<ChangeMap, Fault>)
    ensures var ks := ReleaseKeys(versionChanges);
      match FirstMissing(ks)
      case Some(i) => r == Err(NoVersionInMessage(versionChanges[i].message))
      case None => r == Ok(EmptyBuckets(Dedup(Present(ks))))
  {
    ghost var ks := ReleaseKeys(versionChanges);
    var changeMap: ChangeMap := [];
    for i := 0 to |versionChanges|
      invariant forall j :: 0 <= j < i ==> ks[j].Some?
      invariant changeMap == EmptyBuckets(Dedup(Present(ks[..i])))
    {
      var key := VersionKey(versionChanges[i].message);
      assert key == ks[i];
      if key.None? {
        FirstMissingAt(ks, i);
        return Err(NoVersionInMessage(versionChanges[i].message));
      }
      PresentPrefix(ks, i);
      InsertKeyStep(Present(ks[..i]), key.value);
      changeMap := Insert(changeMap, key.value, []);
    }
    assert ks[..|versionChanges|] == ks;
    r := Ok(changeMap);
  }

  /** The second loop of `get_changes`: each ordinary change pushed onto the
      bucket of its release. */
  method FileChanges(changeMap: ChangeMap, versionChanges: seq<Change>, changes: seq<Change>)
    returns (r: Result<ChangeMap, Fault>)
    requires FirstMissing(ReleaseKeys(versionChanges)).None?
    requires changeMap == EmptyBuckets(Dedup(Present(ReleaseKeys(versionChanges))))
    ensures r == Grouping(versionChanges, changes)
  {
    ghost var ks := ReleaseKeys(versionChanges);
    ghost var keys := Dedup(Present(ks));
    var buckets := changeMap;
    assert buckets == Groups(keys, changes[..0], Filing(versionChanges, ks, changes[..0]));
    for i := 0 to |changes|
      invariant FirstUnreleased(changes[..i], versionChanges).None?
      invariant buckets == Groups(keys, changes[..i], Filing(versionChanges, ks, changes[..i]))
    {
      var change := changes[i];
      var release := NearestRelease(versionChanges, change.date);
      if release.None? {
        FirstUnreleasedAt(changes, versionChanges, i);
        return Err(NoReleaseAfter(change.commitId));
      }
      AllReleasedStep(changes, versionChanges, i);
      ghost var filed := FiledKey(versionChanges, changes, i);
      ghost var q := FilingStep(versionChanges, ks, keys, changes, i, filed, buckets);
      var key := VersionKey(versionChanges[release.value].message).value;
      var p := KeyIndex(buckets, key).value;
      buckets := buckets[p := (key, buckets[p].1 + [change])];
    }
    assert changes[..|changes|] == changes;
    r := Ok(buckets);
  }

  /** One turn of the second loop: pushing the change onto the bucket of
      the key it is assigned files it. */
  lemma FilingStep(rs: seq<Change>, ks: seq<Option<string>>, keys: seq<string>, cs: seq<Change>, i: nat,
                   key: string, buckets: ChangeMap) returns (p: nat)
    requires |ks| == |rs| && Distinct(keys) && key in keys && i < |cs|
    requires AssignedKey(rs, ks, cs[i]) == Some(key)
    requires buckets == Groups(keys, cs[..i], Filing(rs, ks, cs[..i]))
    ensures KeyIndex(buckets, key) == Some(p) && p < |buckets|
    ensures buckets[p := (key, buckets[p].1 + [cs[i]])] == Groups(keys, cs[..i + 1], Filing(rs, ks, cs[..i + 1]))
  {
    var pre := cs[..i];
    assert cs[..i + 1] == pre + [cs[i]];
    FilingAppend(rs, ks, pre, cs[i]);
    p := PushFiles(keys, pre, Filing(rs, ks, pre), cs[i], key, buckets);
  }

  /** Pushing a change onto the bucket of a listed key files it under
      that key. */
  lemma PushFiles(keys: seq<string>, cs: seq<Change>, tags: seq<Option<string>>, c: Change, key: string,
                  buckets: ChangeMap) returns (p: nat)
    requires |tags| == |cs| && Distinct(keys) && key in keys
    requires buckets == Groups(keys, cs, tags)
    ensures KeyIndex(buckets, key) == Some(p) && p < |buckets|
    ensures buckets[p := (key, buckets[p].1 + [c])] == Groups(keys, cs + [c], tags + [Some(key)])
  {
    KeyInGroups(keys, cs, tags, key);
    p := KeyIndex(buckets, key).value;
    GroupsPush(keys, cs, tags, c, p);
  }

  /** The key a change is filed under is one of the release keys. */
  lemma FiledKey(versionChanges: seq<Change>, changes: seq<Change>, i: nat) returns (key: string)
    requires FirstMissing(ReleaseKeys(versionChanges)).None? && i < |changes|
    requires NearestRelease(versionChanges, changes[i].date).Some?
    ensures VersionKey(versionChanges[NearestRelease(versionChanges, changes[i].date).value].message) == Some(key)
    ensures key in Dedup(Present(ReleaseKeys(versionChanges)))
    ensures AssignedKey(versionChanges, ReleaseKeys(versionChanges), changes[i]) == Some(key)
  {
    var ks := ReleaseKeys(versionChanges);
    var j := NearestRelease(versionChanges, changes[i].date).value;
    assert ks[j] == VersionKey(versionChanges[j].message);
    key := ks[j].value;
    ReleaseKeyListed(ks, j);
    var pre := changes[..i];
  }

  lemma FilingAppend(rs: seq<Change>, ks: seq<Option<string>>, cs: seq<Change>, c: Change)
    requires |ks| == |rs|
    ensures Filing(rs, ks, cs + [c]) == Filing(rs, ks, cs) + [AssignedKey(rs, ks, c)]
  {
    assert (cs + [c])[..|cs|] == cs;
  }

  // ---------------------------------------------------------------------
  // What `get_changes` promises

  /** A change is in the bucket of `k` exactly when it is one of the changes
      filed under `k`. */
  lemma {:induction false} BucketMembers(cs: seq<Change>, tags: seq<Option<string>>, k: string, c: Change)
    requires |tags| == |cs|
    ensures c in Bucket(cs, tags, k) <==> exists i :: 0 <= i < |cs| && cs[i] == c && tags[i] == Some(k)
    decreases |cs|
  {
    if |cs| > 0 {
      var n := |cs| - 1;
      BucketMembers(cs[..n], tags[..n], k, c);
      if exists i :: 0 <= i < |cs| && cs[i] == c && tags[i] == Some(k) {
        var i :| 0 <= i < |cs| && cs[i] == c && tags[i] == Some(k);
        if i < n {
          assert cs[..n][i] == c && tags[..n][i] == Some(k);
        }
      }
      if exists i :: 0 <= i < n && cs[..n][i] == c && tags[..n][i] == Some(k) {
        var i :| 0 <= i < n && cs[..n][i] == c && tags[..n][i] == Some(k);
        assert cs[i] == c && tags[i] == Some(k);
      }
    }
  }

  /** Each change is filed under the key of its nearest release. */
  lemma {:induction false} FilingAt(rs: seq<Change>, ks: seq<Option<string>>, cs: seq<Change>, i: nat)
    requires |ks| == |rs| && i < |cs|
    ensures Filing(rs, ks, cs)[i] == AssignedKey(rs, ks, cs[i])
    decreases |cs|
  {
    var n := |cs| - 1;
    if i < n {
      FilingAt(rs, ks, cs[..n], i);
    }
  }

  /** All the changes of a map, bucket after bucket. */
  function Flatten(m: ChangeMap): seq<Change>
  {
    if |m| == 0 then [] else Flatten(m[..|m| - 1]) + m[|m| - 1].1
  }

  /** Replacing one bucket replaces its changes in the whole. */
  lemma {:induction false} FlattenUpdate(m: ChangeMap, p: nat, e: (string, seq<Change>))
    requires p < |m|
    ensures multiset(Flatten(m[p := e])) + multiset(m[p].1) == multiset(Flatten(m)) + multiset(e.1)
    decreases |m|
  {
    var n := |m| - 1;
    var u := m[p := e];
    if p == n {
      assert u[..n] == m[..n];
    } else {
      assert u[..n] == m[..n][p := e];
      FlattenUpdate(m[..n], p, e);
      assert Flatten(u) == Flatten(m[..n][p := e]) + m[n].1;
      AppendBoth(Flatten(m[..n][p := e]), Flatten(m[..n]), m[p].1, e.1, m[n].1);
    }
  }

  lemma AppendBoth(a: seq<Change>, b: seq<Change>, x: seq<Change>, y: seq<Change>, z: seq<Change>)
    requires multiset(a) + multiset(x) == multiset(b) + multiset(y)
    ensures multiset(a + z) + multiset(x) == multiset(b + z) + multiset(y)
  {
    assert multiset(a + z) == multiset(a) + multiset(z);
    assert multiset(b + z) == multiset(b) + multiset(z);
    var lhs, rhs := multiset(a + z) + multiset(x), multiset(b + z) + multiset(y);
    forall c ensures lhs[c] == rhs[c] {
      assert (multiset(a) + multiset(x))[c] == (multiset(b) + multiset(y))[c];
    }
    assert lhs == rhs;
  }

  lemma CancelBucket(f: seq<Change>, b: seq<Change>, g: seq<Change>, c: Change)
    requires multiset(f) + multiset(b) == multiset(g) + multiset(b + [c])
    ensures multiset(f) == multiset(g) + multiset{c}
  {
    assert multiset(b + [c]) == multiset(b) + multiset{c};
    forall x ensures multiset(f)[x] == (multiset(g) + multiset{c})[x] {
      assert (multiset(f) + multiset(b))[x] == (multiset(g) + multiset(b + [c]))[x];
    }
    assert multiset(f) == multiset(g) + multiset{c};
  }

  lemma {:induction false} FlattenEmpty(m: ChangeMap)
    requires forall p :: 0 <= p < |m| ==> m[p].1 == []
    ensures Flatten(m) == []
    decreases |m|
  {
    if |m| > 0 {
      FlattenEmpty(m[..|m| - 1]);
    }
  }

  /** When every change is filed under a listed key, the buckets hold each
      change exactly once. */
  lemma {:induction false} GroupsPartition(keys: seq<string>, cs: seq<Change>, tags: seq<Option<string>>)
    requires |tags| == |cs| && Distinct(keys)
    requires forall i :: 0 <= i < |tags| ==> tags[i].Some? && tags[i].value in keys
    ensures multiset(Flatten(Groups(keys, cs, tags))) == multiset(cs)
    decreases |cs|
  {
    if |cs| == 0 {
      FlattenEmpty(Groups(keys, cs, tags));
    } else {
      var n := |cs| - 1;
      var c, t := cs[n], tags[n];
      assert cs == cs[..n] + [c] && tags == tags[..n] + [t];
      var p :| 0 <= p < |keys| && keys[p] == t.value;
      GroupsPartition(keys, cs[..n], tags[..n]);
      var before := Groups(keys, cs[..n], tags[..n]);
      var b := Bucket(cs[..n], tags[..n], keys[p]);
      GroupsPush(keys, cs[..n], tags[..n], c, p);
      assert Groups(keys, cs, tags) == before[p := (keys[p], b + [c])];
      FlattenUpdate(before, p, (keys[p], b + [c]));
      CancelBucket(Flatten(Groups(keys, cs, tags)), b, Flatten(before), c);
      assert multiset(cs) == multiset(cs[..n]) + multiset{c};
    }
  }

  /** Grouping succeeds exactly when every release names a version and
      every other change has a release dated at or after it. */
  lemma GroupingSucceeds(rs: seq<Change>, ordinary: seq<Change>)
    ensures Grouping(rs, ordinary).Ok? <==>
      && (forall j :: 0 <= j < |rs| ==> VersionKey(rs[j].message).Some?)
      && (forall i :: 0 <= i < |ordinary| ==> exists j :: 0 <= j < |rs| && rs[j].date >= ordinary[i].date)
  {
    AllKeyed(rs);
  }

  lemma AllKeyed(rs: seq<Change>)
    ensures (forall j :: 0 <= j < |rs| ==> VersionKey(rs[j].message).Some?) <==> FirstMissing(ReleaseKeys(rs)).None?
  {
    var ks := ReleaseKeys(rs);
    forall j | 0 <= j < |rs| ensures ks[j] == VersionKey(rs[j].message) { }
  }

  /** The keys of a map, in order. */
  function MapKeys(m: ChangeMap): (r: seq<string>)
    ensures |r| == |m| && forall p :: 0 <= p < |m| ==> r[p] == m[p].0
  {
    seq(|m|, p requires 0 <= p < |m| => m[p].0)
  }

  /** The successful grouping has one bucket per release key, no key twice,
      and the newest release's key first. */
  lemma GroupingKeys(rs: seq<Change>, ordinary: seq<Change>)
    ensures Grouping(rs, ordinary).Ok? ==>
      var keys := MapKeys(Grouping(rs, ordinary).value);
      && Distinct(keys)
      && (forall j :: 0 <= j < |rs| ==> VersionKey(rs[j].message).Some? && VersionKey(rs[j].message).value in keys)
      && (forall k :: k in keys ==> exists j :: 0 <= j < |rs| && VersionKey(rs[j].message) == Some(k))
      && (|rs| > 0 ==> |keys| > 0 && VersionKey(rs[0].message) == Some(keys[0]))
  {
    if Grouping(rs, ordinary).Ok? {
      var ks := ReleaseKeys(rs);
      var m := Grouping(rs, ordinary).value;
      assert MapKeys(m) == Dedup(Present(ks));
      DedupOfReleaseKeys(rs);
    }
  }

  lemma DedupOfReleaseKeys(rs: seq<Change>)
    requires FirstMissing(ReleaseKeys(rs)).None?
    ensures var keys := Dedup(Present(ReleaseKeys(rs)));
      && (forall j :: 0 <= j < |rs| ==> VersionKey(rs[j].message).Some? && VersionKey(rs[j].message).value in keys)
      && (forall k :: k in keys ==> exists j :: 0 <= j < |rs| && VersionKey(rs[j].message) == Some(k))
      && (|rs| > 0 ==> |keys| > 0 && VersionKey(rs[0].message) == Some(keys[0]))
  {
    var ks := ReleaseKeys(rs);
    var present := Present(ks);
    forall j | 0 <= j < |rs| ensures VersionKey(rs[j].message) == Some(present[j]) {
      assert ks[j] == VersionKey(rs[j].message);
    }
    forall k | k in present ensures exists j :: 0 <= j < |rs| && VersionKey(rs[j].message) == Some(k) {
      var j :| 0 <= j < |present| && present[j] == k;
    }
  }

  /** Some release naming `a` comes before every release naming `b`. */
  predicate NamedBefore(rs: seq<Change>, a: string, b: string) {
    exists i :: 0 <= i < |rs| && VersionKey(rs[i].message) == Some(a) &&
      forall j :: 0 <= j < |rs| && VersionKey(rs[j].message) == Some(b) ==> i < j
  }

  /** The keys of the successful grouping come in the order of the releases
      that first name them. */
  lemma GroupingKeyOrder(rs: seq<Change>, ordinary: seq<Change>)
    ensures Grouping(rs, ordinary).Ok? ==>
      var keys := MapKeys(Grouping(rs, ordinary).value);
      forall p, q :: 0 <= p < q < |keys| ==> NamedBefore(rs, keys[p], keys[q])
  {
    if Grouping(rs, ordinary).Ok? {
      var ks := ReleaseKeys(rs);
      var present := Present(ks);
      assert MapKeys(Grouping(rs, ordinary).value) == Dedup(present);
      forall j | 0 <= j < |rs| ensures VersionKey(rs[j].message) == Some(present[j]) {
        assert ks[j] == VersionKey(rs[j].message);
      }
      KeyOrderOfReleases(rs, present);
    }
  }

  lemma KeyOrderOfReleases(rs: seq<Change>, present: seq<string>)
    requires |present| == |rs|
    requires forall j :: 0 <= j < |rs| ==> VersionKey(rs[j].message) == Some(present[j])
    ensures forall p, q :: 0 <= p < q < |Dedup(present)| ==> NamedBefore(rs, Dedup(present)[p], Dedup(present)[q])
  {
    var keys := Dedup(present);
    DedupInFirstOrder(present);
    forall p, q | 0 <= p < q < |keys| ensures NamedBefore(rs, keys[p], keys[q]) {
      var i := FirstAt(present, keys[p]);
      forall j | 0 <= j < |rs| && VersionKey(rs[j].message) == Some(keys[q]) ensures i < j {
        assert present[j] == keys[q];
      }
    }
  }

  /** Some release naming `a` is at least as new as every release naming `b`. */
  predicate NamedNoOlder(rs: seq<Change>, a: string, b: string) {
    exists i :: 0 <= i < |rs| && VersionKey(rs[i].message) == Some(a) &&
      forall j :: 0 <= j < |rs| && VersionKey(rs[j].message) == Some(b) ==> rs[i].date >= rs[j].date
  }

  /** The changelog's versions run from the newest release down: for two
      keys, the earlier one is named by a release at least as new as every
      release naming the later one. */
  lemma ChangeGroupsNewestFirst(changes: seq<Change>, version: Versions.Version, now: int)
    ensures var r := ChangeGroups(changes, version, now);
      r.Ok? ==> forall p, q :: 0 <= p < q < |r.value| ==>
        NamedNoOlder(Releases(changes, version, now), r.value[p].0, r.value[q].0)
  {
    var rs := Releases(changes, version, now);
    var r := ChangeGroups(changes, version, now);
    if r.Ok? {
      GroupingKeyOrder(rs, WithoutType(changes, Version));
      var keys := MapKeys(r.value);
      forall p, q | 0 <= p < q < |r.value| ensures NamedNoOlder(rs, r.value[p].0, r.value[q].0) {
        assert NamedBefore(rs, keys[p], keys[q]);
        BeforeIsNoOlder(rs, keys[p], keys[q]);
      }
    }
  }

  lemma BeforeIsNoOlder(rs: seq<Change>, a: string, b: string)
    requires NewestFirst(rs) && NamedBefore(rs, a, b)
    ensures NamedNoOlder(rs, a, b)
  {
    var i :| 0 <= i < |rs| && VersionKey(rs[i].message) == Some(a) &&
      forall j :: 0 <= j < |rs| && VersionKey(rs[j].message) == Some(b) ==> i < j;
    assert forall j :: 0 <= j < |rs| && VersionKey(rs[j].message) == Some(b) ==> rs[i].date >= rs[j].date;
  }

  /** In the successful grouping a change is in a bucket exactly when it is
      one of the ordinary changes and its nearest release has that bucket's
      key. */
  lemma GroupingFiles(rs: seq<Change>, ordinary: seq<Change>, p: nat, c: Change)
    ensures Grouping(rs, ordinary).Ok? && p < |Grouping(rs, ordinary).value| ==>
      var m := Grouping(rs, ordinary).value;
      (c in m[p].1 <==>
        && c in ordinary
        && NearestRelease(rs, c.date).Some?
        && VersionKey(rs[NearestRelease(rs, c.date).value].message) == Some(m[p].0))
  {
    if Grouping(rs, ordinary).Ok? && p < |Grouping(rs, ordinary).value| {
      var m := Grouping(rs, ordinary).value;
      var ks := ReleaseKeys(rs);
      var tags := Filing(rs, ks, ordinary);
      var k := m[p].0;
      assert m[p].1 == Bucket(ordinary, tags, k);
      BucketMembers(ordinary, tags, k, c);
      if c in ordinary {
        var i :| 0 <= i < |ordinary| && ordinary[i] == c;
        FilingAt(rs, ks, ordinary, i);
        AssignedKeyOf(rs, c);
      }
      if exists i :: 0 <= i < |ordinary| && ordinary[i] == c && tags[i] == Some(k) {
        var i :| 0 <= i < |ordinary| && ordinary[i] == c && tags[i] == Some(k);
        FilingAt(rs, ks, ordinary, i);
        AssignedKeyOf(rs, c);
      }
    }
  }

  /** Within each group the changes keep the order of `ordinary`. */
  lemma GroupingInOrder(rs: seq<Change>, ordinary: seq<Change>)
    ensures Grouping(rs, ordinary).Ok? ==>
      var m := Grouping(rs, ordinary).value;
      forall p :: 0 <= p < |m| ==> Subsequence(m[p].1, ordinary)
  {
    if Grouping(rs, ordinary).Ok? {
      var m := Grouping(rs, ordinary).value;
      var tags := Filing(rs, ReleaseKeys(rs), ordinary);
      forall p | 0 <= p < |m| ensures Subsequence(m[p].1, ordinary) {
        BucketInOrder(ordinary, tags, m[p].0);
      }
    }
  }

  lemma AssignedKeyOf(rs: seq<Change>, c: Change)
    ensures AssignedKey(rs, ReleaseKeys(rs), c) ==
      if NearestRelease(rs, c.date).Some? then VersionKey(rs[NearestRelease(rs, c.date).value].message) else None
  {
  }

  /** The successful grouping files every ordinary change exactly once. */
  lemma GroupingPartition(rs: seq<Change>, ordinary: seq<Change>)
    ensures Grouping(rs, ordinary).Ok? ==> multiset(Flatten(Grouping(rs, ordinary).value)) == multiset(ordinary)
  {
    if Grouping(rs, ordinary).Ok? {
      var ks := ReleaseKeys(rs);
      var keys := Dedup(Present(ks));
      var tags := Filing(rs, ks, ordinary);
      forall i | 0 <= i < |tags| ensures tags[i].Some? && tags[i].value in keys {
        FilingAt(rs, ks, ordinary, i);
        var j := NearestRelease(rs, ordinary[i].date).value;
        ReleaseKeyListed(ks, j);
      }
      GroupsPartition(keys, ordinary, tags);
    }
  }

  /** Every change filed by `get_changes` is a feature or a fix. */
  lemma ChangeLogFilesFeaturesAndFixes(log: string, repo: Option<string>, parseDate: string -> Option<int>,
                                       version: Versions.Version, now: int, p: nat, c: Change)
    ensures var r := ChangeLog(log, repo, parseDate, version, now);
      r.Ok? && p < |r.value| && c in r.value[p].1 ==> c.changeType == Feature || c.changeType == Fix
  {
    var parsed := ParseLog(log, repo, parseDate);
    if parsed.Ok? {
      ParsedKnown(log, repo, parseDate);
      FiledOrdinary(parsed.value, version, now, p, c);
    }
  }

  lemma ParsedKnown(log: string, repo: Option<string>, parseDate: string -> Option<int>)
    ensures ParseLog(log, repo, parseDate).Ok? ==> forall c :: c in ParseLog(log, repo, parseDate).value ==> c.changeType != Unknown
  {
  }

  lemma FiledOrdinary(changes: seq<Change>, version: Versions.Version, now: int, p: nat, c: Change)
    ensures var r := ChangeGroups(changes, version, now);
      r.Ok? && p < |r.value| && c in r.value[p].1 ==> c in changes && c.changeType != Version
  {
    GroupingFiles(Releases(changes, version, now), WithoutType(changes, Version), p, c);
  }

  /** When the release being made is newer than every release in the
      history, its key comes first. */
  lemma PendingReleaseFirst(changes: seq<Change>, version: Versions.Version, now: int)
    requires forall c :: c in changes && c.changeType == Version ==> c.date < now
    ensures var r := ChangeGroups(changes, version, now);
      r.Ok? ==> |r.value| > 0 && Some(r.value[0].0) == VersionKey(PendingRelease(version, now).message)
  {
    var pending := PendingRelease(version, now);
    var history := OfType(changes, Version);
    var rs := Releases(changes, version, now);
    assert pending in multiset(history + [pending]);
    assert pending in rs;
    var j :| 0 <= j < |rs| && rs[j] == pending;
    assert rs[0] in multiset(history + [pending]);
    assert rs[0] in history + [pending];
    assert rs[0].date >= now;
    assert rs[0] == pending;
    GroupingKeys(rs, WithoutType(changes, Version));
  }

  /** A history holding the release of 1.0.0 and a feature committed
      before it, while 1.1.0 is being made: the key of the release being
      made comes first with no changes, and the feature is filed under
      1.0.0. */
  lemma OneReleaseScenario(released: Change, feature: Change)
    requires released.message == VersionCommitMessage + "1.0.0" && released.changeType == Version && released.date == 100
    requires feature.changeType == Feature && feature.date == 50
    ensures ChangeGroups([released, feature], Versions.Version(1, 1, 0), 200) == Ok([("1.1.0", []), ("1.0.0", [feature])])
  {
    var pending := PendingRelease(Versions.Version(1, 1, 0), 200);
    var changes := [released, feature];
    ScenarioSplit(released, feature);
    ScenarioSort(released, pending);
    PairOf(OfType(changes, Version), released, pending);
    assert Releases(changes, Versions.Version(1, 1, 0), 200) == [pending, released];
    ScenarioPendingKey();
    ScenarioReleasedKey();
    ScenarioKeys(pending, released, "1.1.0", "1.0.0");
    ScenarioFiling(pending, released, feature);
    assert ChangeGroups(changes, Versions.Version(1, 1, 0), 200) == Grouping([pending, released], [feature]);
  }

  lemma ScenarioSplit(released: Change, feature: Change)
    requires released.changeType == Version && feature.changeType == Feature
    ensures OfType([released, feature], Version) == [released]
    ensures WithoutType([released, feature], Version) == [feature]
  {
    assert [released, feature][..1] == [released];
    assert [released][..0] == [];
    assert OfType([released], Version) == [released];
    assert WithoutType([released], Version) == [];
  }

  lemma PairOf<T>(front: seq<T>, a: T, b: T)
    requires front == [a]
    ensures front + [b] == [a, b]
  {
  }

  lemma ScenarioSort(older: Change, newer: Change)
    requires older.date < newer.date
    ensures SortNewestFirst([older, newer]) == [newer, older]
  {
    assert [older, newer][..1] == [older];
    assert [older][..0] == [];
    assert SortNewestFirst([older]) == [older];
    assert [older][..0] == [];
  }

  lemma ScenarioKeys(first: Change, second: Change, a: string, b: string)
    requires VersionKey(first.message) == Some(a) && VersionKey(second.message) == Some(b)
    ensures ReleaseKeys([first, second]) == [Some(a), Some(b)]
  {
    var ks := ReleaseKeys([first, second]);
    assert ks[0] == Some(a);
    assert ks[1] == Some(b);
    PairIs(ks, Some(a), Some(b));
  }

  lemma PairIs<T>(s: seq<T>, a: T, b: T)
    requires |s| == 2 && s[0] == a && s[1] == b
    ensures s == [a, b]
  {
  }

  lemma ScenarioPendingKey()
    ensures VersionKey(PendingRelease(Versions.Version(1, 1, 0), 200).message) == Some("1.1.0")
  {
    Versions.SmallIntToString(0);
    Versions.SmallIntToString(1);
    assert Versions.ToString(Versions.Version(1, 1, 0)) == "1.1.0";
    PendingReleaseKey(Versions.Version(1, 1, 0), 200);
  }

  lemma ScenarioReleasedKey()
    ensures VersionKey(VersionCommitMessage + "1.0.0") == Some("1.0.0")
  {
    Versions.SmallIntToString(0);
    Versions.SmallIntToString(1);
    assert Versions.ToString(Versions.Version(1, 0, 0)) == "1.0.0";
    PendingReleaseKey(Versions.Version(1, 0, 0), 100);
  }

  lemma ScenarioFiling(pending: Change, released: Change, feature: Change)
    requires pending.date == 200 && released.date == 100 && feature.date == 50
    requires ReleaseKeys([pending, released]) == [Some("1.1.0"), Some("1.0.0")]
    ensures Grouping([pending, released], [feature]) == Ok([("1.1.0", []), ("1.0.0", [feature])])
  {
    var rs := [pending, released];
    var ks := ReleaseKeys(rs);
    var keys := ScenarioDedup(ks);
    ScenarioNearest(rs, feature);
    assert Filing(rs, ks, [feature]) == [Some("1.0.0")] by {
      assert [feature][..0] == [];
    }
    assert Grouping(rs, [feature]) == Ok(Groups(keys, [feature], [Some("1.0.0")]));
    ScenarioBuckets(feature);
  }

  lemma ScenarioBuckets(feature: Change)
    ensures Groups(["1.1.0", "1.0.0"], [feature], [Some("1.0.0")]) == [("1.1.0", []), ("1.0.0", [feature])]
  {
    assert [feature][..0] == [];
    assert [Some("1.0.0")][..0] == [];
    assert "1.0.0" != "1.1.0" by { assert "1.0.0"[2] != "1.1.0"[2]; }
    assert Bucket([feature], [Some("1.0.0")], "1.1.0") == [];
    assert Bucket([feature], [Some("1.0.0")], "1.0.0") == [feature];
  }

  lemma ScenarioDedup(ks: seq<Option<string>>) returns (keys: seq<string>)
    requires ks == [Some("1.1.0"), Some("1.0.0")]
    ensures FirstMissing(ks) == None
    ensures keys == Dedup(Present(ks)) == ["1.1.0", "1.0.0"]
  {
    assert ks[1..] == [Some("1.0.0")];
    assert Present(ks) == ["1.1.0", "1.0.0"];
    assert ["1.1.0", "1.0.0"][..1] == ["1.1.0"];
    assert ["1.1.0"][..0] == [];
    assert "1.0.0" != "1.1.0" by { assert "1.0.0"[2] != "1.1.0"[2]; }
    keys := ["1.1.0", "1.0.0"];
  }

  lemma ScenarioNearest(rs: seq<Change>, feature: Change)
    requires |rs| == 2 && rs[0].date == 200 && rs[1].date == 100 && feature.date == 50
    ensures FirstUnreleased([feature], rs) == None
    ensures NearestRelease(rs, feature.date) == Some(1)
  {
    assert Releasable(rs, 50) by { assert rs[1].date >= 50; }
    assert [feature][1..] == [];
  }
}
