/** The report `check_for_uncommitted_changes` prints from the short format
    of `git status --porcelain`. */
module Util {
  import opened Wrappers
  import opened Strings

  /** The heading printed before the list of changes. */
  const UncommittedHeader: string :=
    "\U{1F6D1}There Are Uncommitted Changes, please commit before trying again:"

  /** The character class `[M,T,A,R,D,C,U,\?]`: the status letters and, as
      written, the comma. */
  predicate IsStatusChar(c: char) {
    c in {'M', ',', 'T', 'A', 'R', 'D', 'C', 'U', '?'}
  }

  /** Where the pattern's `prefix` group matches: its leftmost class
      character, since `.*$` matches whatever follows on the line. */
  function FirstStatusChar(line: string): (r: Option<nat>)
    ensures r.None? <==> forall k :: 0 <= k < |line| ==> !IsStatusChar(line[k])
    ensures r.Some? ==> (r.value < |line| && IsStatusChar(line[r.value])
      && forall k :: 0 <= k < r.value ==> !IsStatusChar(line[k]))
  {
    if |line| == 0 then None
    else if IsStatusChar(line[0]) then Some(0)
    else match FirstStatusChar(line[1..])
      case None => None
      case Some(i) => Some(i + 1)
  }

  /** The label of a prefix, without its colour. */
  function Label(c: char): (r: string)
    ensures |r| > 1 && r[|r| - 1] == ':'
    ensures r == "Unknown:" <==> c !in {'M', 'T', 'A', 'R', 'D', 'C', 'U', '?'}
  {
    match c
    case 'M' => "Modified:"
    case 'T' => "File Type Changed:"
    case 'A' => "Added:"
    case 'R' => "Renamed:"
    case 'D' => "Deleted:"
    case 'C' => "Copied:"
    case 'U' => "Unmerged:"
    case '?' => "Untracked:"
    case _ => "Unknown:"
  }

  /** Each status letter has its own label, and among the class only the
      comma falls to `Unknown:`. */
  lemma LabelsDistinct(c: char, d: char)
    requires IsStatusChar(c) && IsStatusChar(d)
    ensures Label(c) == Label(d) <==> c == d
    ensures Label(c) == "Unknown:" <==> c == ','
  {
  }

  /** The printed form of one line: echoed as it is when it holds no class
      character, otherwise the prefix's label, a space, and the rest of the
      line after the prefix. */
  function DescribeLine(line: string): (r: string)
    ensures FirstStatusChar(line).None? ==> r == line
    ensures FirstStatusChar(line).Some? ==> |r| > |line| - FirstStatusChar(line).value
  {
    match FirstStatusChar(line)
    case None => line
    case Some(i) => Label(line[i]) + " " + line[i + 1..]
  }

  /** What `DescribeLine` prints, in terms of the line itself. */
  lemma DescribeLineCases(line: string)
    ensures (forall k :: 0 <= k < |line| ==> !IsStatusChar(line[k])) ==> DescribeLine(line) == line
    ensures |line| > 0 && IsStatusChar(line[0]) ==> DescribeLine(line) == Label(line[0]) + " " + line[1..]
    ensures forall i :: 0 <= i < |line| && IsStatusChar(line[i]) && (forall k :: 0 <= k < i ==> !IsStatusChar(line[k])) ==>
      DescribeLine(line) == Label(line[i]) + " " + line[i + 1..]
  {
    match FirstStatusChar(line) {
      case None =>
      case Some(j) =>
        forall i | 0 <= i < |line| && IsStatusChar(line[i]) && (forall k :: 0 <= k < i ==> !IsStatusChar(line[k]))
          ensures i == j
        {
        }
    }
  }

  /** An untracked file: the first `?` of `??` is the prefix, so one `?`
      stays in the printed text. */
  lemma DescribeUntracked()
    ensures DescribeLine("?? new.rs") == "Untracked: ? new.rs"
  {
    var line := "?? new.rs";
    assert IsStatusChar(line[0]);
    assert FirstStatusChar(line) == Some(0);
    assert line[1..] == "? new.rs";
  }

  /** A change to the work tree only: the leading blank is skipped, and the
      blank after the `M` stays in front of the path. */
  lemma DescribeWorkTreeChange()
    ensures DescribeLine(" M a.rs") == "Modified:  a.rs"
  {
    var line := " M a.rs";
    assert line[1..] == "M a.rs";
    assert FirstStatusChar("M a.rs") == Some(0);
    assert !IsStatusChar(line[0]);
    assert line[2..] == " a.rs";
  }

  /** The lines printed for a list of status lines, one per line, in order. */
  function Described(lines: seq<string>): (r: seq<string>)
    ensures |r| == |lines|
    ensures forall k :: 0 <= k < |lines| ==> r[k] == DescribeLine(lines[k])
  {
    if |lines| == 0 then []
    else Described(lines[..|lines| - 1]) + [DescribeLine(lines[|lines| - 1])]
  }

  lemma ReportStep(lines: seq<string>, k: nat)
    requires k < |lines|
    ensures Described(lines[..k + 1]) == Described(lines[..k]) + [DescribeLine(lines[k])]
  {
    assert lines[..k + 1][..k] == lines[..k];
  }

  /** The `for` loop of `check_for_uncommitted_changes`: a line without a
      prefix is echoed and the loop moves on; any other line is printed as
      its label and change text. */
  method ReportChanges(lines: seq<string>) returns (printed: seq<string>)
    ensures printed == Described(lines)
  {
    printed := [];
    for k := 0 to |lines|
      invariant printed == Described(lines[..k])
    {
      var line := lines[k];
      ReportStep(lines, k);
      var prefix := FirstStatusChar(line);
      if prefix.None? {
        printed := printed + [line];
        continue;
      }
      printed := printed + [Label(line[prefix.value]) + " " + line[prefix.value + 1..]];
    }
    assert lines[..|lines|] == lines;
  }

  /** `check_for_uncommitted_changes`, given the status output: the lines it
      prints and the exit code it ends the process with, if any. Nothing is
      printed for empty output; otherwise the heading, one line per
      non-empty status line, and exit code 1. */
  method CheckForUncommittedChanges(status: string) returns (printed: seq<string>, exitCode: Option<int>)
    ensures |status| == 0 ==> printed == [] && exitCode == None
    ensures |status| > 0 ==> (exitCode == Some(1)
      && printed == [UncommittedHeader] + Described(NonEmptyLines(status)))
  {
    if |status| == 0 {
      return [], None;
    }
    printed := [UncommittedHeader];
    var uncommittedChanges := NonEmptyLines(status);
    var report := ReportChanges(uncommittedChanges);
    printed := printed + report;
    exitCode := Some(1);
  }

  /** Empty lines of the status output are never printed, and every
      non-empty line is reported. */
  lemma ReportSkipsEmptyLines(status: string, line: string)
    ensures line in NonEmptyLines(status) ==> |line| > 0
    ensures line in Split(status, '\n') && |line| > 0 ==> DescribeLine(line) in Described(NonEmptyLines(status))
  {
    var lines := NonEmptyLines(status);
    if line in Split(status, '\n') && |line| > 0 {
      var k :| 0 <= k < |lines| && lines[k] == line;
      assert Described(lines)[k] == DescribeLine(line);
    }
  }
}
