/** `compare_files`: the captured printout is line-diffed against the reference
    printout, the diff is cut down to its insertion and deletion lines, and the
    outcome is appended to the run's result log. The diff itself is an input
    here: any sequence of lines the diff algorithm may produce. */
module Comparator {
  import opened Strings
  import opened Seqs

  const WarningHead: string := "warning: "
  const WarningTail: string :=
    " differences found between tutorial printouts now and the reference printouts"
    + " - unless differences are expected or explainable (e.g. tutorials changes;"
    + " e.g. printout order for non-ordered sets/dictionaries),"
    + " they may cause a pull request to be rejected"
  const SuccessMessage: string :=
    "great! "
    + "no differences found between tutorial printouts now and the reference printouts."

  /** A diff line that records a deleted (`- `) or inserted (`+ `) line. */
  predicate IsChange(line: string) {
    StartsWith(line, "- ") || StartsWith(line, "+ ")
  }

  /** The diff without its context (`  `) and hint (`? `) lines. */
  function Changes(diff: seq<string>): (r: seq<string>)
    ensures forall i :: 0 <= i < |r| ==> !StartsWith(r[i], "  ") && !StartsWith(r[i], "? ")
  {
    Filter(diff, IsChange)
  }

  /** The warning for `count` differing lines. */
  function Warning(count: nat): string {
    WarningHead + NatToString(count) + WarningTail
  }

  /** What one comparison appends to the log, given the kept diff lines. */
  function LogEntries(changes: seq<string>): seq<string> {
    if changes != [] then [Warning(|changes|), Concat(changes)] else [SuccessMessage]
  }

  /** `user_input.lower() == "y"` */
  predicate IsYes(answer: string) {
    answer == "y" || answer == "Y"
  }

  /** What one comparison prints: each appended entry right after appending it,
      except the diff body, which is printed only on a yes. */
  function Shown(changes: seq<string>, answer: string): seq<string> {
    if changes != [] then
      [Warning(|changes|)] + (if IsYes(answer) then [Concat(changes)] else [])
    else
      [SuccessMessage]
  }

  /** The filter keeps exactly the change lines, in the order the diff had them. */
  lemma ChangesExact(diff: seq<string>, line: string)
    ensures line in Changes(diff) <==> line in diff && IsChange(line)
  {
    if line in diff && IsChange(line) {
      var i :| 0 <= i < |diff| && diff[i] == line;
    }
    if line in Changes(diff) {
      var i :| 0 <= i < |Changes(diff)| && Changes(diff)[i] == line;
    }
  }

  lemma ChangesAppend(a: seq<string>, b: seq<string>)
    ensures Changes(a + b) == Changes(a) + Changes(b)
  {
    FilterAppend(a, b, IsChange);
  }

  /** The warning states the number of differences: the digits between its fixed
      head and tail read back as that number. */
  lemma WarningStatesCount(count: nat)
    ensures |WarningHead| + |WarningTail| <= |Warning(count)|
    ensures AllDigits(Warning(count)[|WarningHead|..|Warning(count)| - |WarningTail|])
    ensures ParseDigits(Warning(count)[|WarningHead|..|Warning(count)| - |WarningTail|]) == count
  {
    var w := Warning(count);
    assert w[|WarningHead|..|w| - |WarningTail|] == NatToString(count);
    ParseNatToString(count);
  }

  /** The log alone tells the outcome: it grows by two entries, the warning first,
      when differences remain, and by the success message alone otherwise. */
  lemma LogOutcome(diff: seq<string>)
    ensures var c := Changes(diff);
      |LogEntries(c)| == (if c == [] then 1 else 2) &&
      (LogEntries(c)[0] == SuccessMessage <==> c == []) &&
      (c != [] ==> LogEntries(c)[0] == Warning(|c|) && LogEntries(c)[1] == Concat(c))
  {
    var c := Changes(diff);
    if c != [] {
      assert Warning(|c|)[0] == 'w';
      assert SuccessMessage[0] == 'g';
    }
  }

  /** The answer only chooses what is printed: every printed line is one of the
      appended log entries, and the log does not depend on the answer. */
  lemma ShownFromLog(changes: seq<string>, answer: string)
    ensures forall k :: 0 <= k < |Shown(changes, answer)| ==> Shown(changes, answer)[k] in LogEntries(changes)
    ensures |Shown(changes, answer)| == |LogEntries(changes)| <==> (changes == [] || IsYes(answer))
  {
  }

  /** The list of result lines the run accumulates and finally writes out. */
  class ResultLog {
    var entries: seq<string>

    /** The log starts with the time-stamped header line. */
    constructor (header: string)
      ensures entries == [header]
    {
      entries := [header];
    }

    /** Lines 36-46: append the outcome of one comparison, given the diff lines and
        the answer typed at the prompt; `shown` is what is printed. */
    method CompareFiles(diff: seq<string>, answer: string) returns (shown: seq<string>)
      modifies this
      ensures entries == old(entries) + LogEntries(Changes(diff))
      ensures |entries| > |old(entries)| && entries[..|old(entries)|] == old(entries)
      ensures shown == Shown(Changes(diff), answer)
    {
      var differences := Changes(diff);
      if differences != [] {
        entries := entries + [Warning(|differences|)];
        shown := [entries[|entries| - 1]];
        entries := entries + [Concat(differences)];
        if IsYes(answer) {
          shown := shown + [entries[|entries| - 1]];
        }
      } else {
        entries := entries + [SuccessMessage];
        shown := [entries[|entries| - 1]];
      }
    }
  }
}
