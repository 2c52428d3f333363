/** `run_tutorials`: before the combined tutorial script is executed, it is
    rewritten so that it reports its progress on the error stream. The script is
    the list of lines `readlines` returned; the rewritten list gains a leading
    `import sys` line, and every notebook-cell marker gets a progress statement
    in front of it, on the same list element. */
module Runner {
  import opened Strings
  import opened Seqs
  import opened Arith

  const ImportLine: string := "import sys\n"

  /** The notebook-cell boundary that the tutorial converter writes. */
  const Marker: string := "# In[ ]:\n"

  /** Text of the progress statement around the percentage. */
  const ProgressHead: string := "sys.stderr.write(\"Progress: "
  const ProgressTail: string := "%\\n\")\n"

  /** A line as `readlines` yields it: a line break, if any, only at its end. */
  predicate IsLine(s: string) {
    forall k :: 0 <= k < |s| - 1 ==> s[k] != '\n'
  }

  /** Progress at original line `i` of `n`, in whole percent, rounded down. */
  function Percent(i: nat, n: nat): (p: nat)
    requires i < n
    ensures p < 100
    ensures p * n <= 100 * i < (p + 1) * n
  {
    var q := i * 100 / n;
    assert q * n + i * 100 % n == i * 100;
    MulMonotone(100, q, n);
    q
  }

  /** The statement that writes `Progress: p%` to standard error, ended by a line break. */
  function ProgressLine(p: nat): string {
    ProgressHead + NatToString(p) + ProgressTail
  }

  /** One element of the rewritten script, from line `i` of `n`. */
  function Rewrite(line: string, i: nat, n: nat): (r: string)
    requires i < n
    ensures EndsWith(r, line)
    ensures line != Marker ==> r == line
  {
    if line == Marker then ProgressLine(Percent(i, n)) + line else line
  }

  /** The rewritten script of lines 19-22. */
  function Instrument(script: seq<string>): (out: seq<string>)
    ensures |out| == |script| + 1 && out[0] == ImportLine
  {
    [ImportLine] + seq(|script|, i requires 0 <= i < |script| => Rewrite(script[i], i, |script|))
  }

  // ------------------------------------------------ reading the rewrite back

  /** The original line inside an element of a rewritten script: what follows a
      line break that is not the last character, or the element itself. */
  function Original(element: string): string {
    var k := FirstNewline(element);
    if k + 1 < |element| then element[k + 1..] else element
  }

  /** The percentage an element reports, when it starts with a progress statement. */
  function Reported(element: string): Option<nat> {
    var k := FirstNewline(element);
    if k + 1 < |element| && |ProgressHead| + |ProgressTail| <= k + 1 then
      var head := element[..k + 1];
      var digits := head[|ProgressHead|..k + 1 - |ProgressTail|];
      if StartsWith(head, ProgressHead) && EndsWith(head, ProgressTail) && AllDigits(digits) then
        Some(ParseDigits(digits))
      else
        None
    else
      None
  }

  /** The script a rewritten script was made from. */
  function Restore(out: seq<string>): seq<string>
    requires |out| >= 1
  {
    seq(|out| - 1, i requires 0 <= i < |out| - 1 => Original(out[i + 1]))
  }

  predicate IsMarker(line: string) {
    line == Marker
  }

  predicate IsProgress(element: string) {
    Reported(element).Some?
  }

  /** A line of the script without the marker passes through the rewrite unread. */
  lemma PlainLine(line: string)
    requires IsLine(line)
    ensures Original(line) == line
    ensures Reported(line) == None
  {
    LineBreakAtEnd(line);
  }

  /** In a line as `readlines` yields it, the first line break is the last character. */
  lemma {:induction false} LineBreakAtEnd(line: string)
    requires IsLine(line)
    ensures FirstNewline(line) + 1 >= |line|
  {
    if line != [] && line[0] != '\n' {
      assert IsLine(line[1..]) by {
        forall k | 0 <= k < |line[1..]| - 1 ensures line[1..][k] != '\n' {
          assert line[1..][k] == line[k + 1];
        }
      }
      LineBreakAtEnd(line[1..]);
    }
  }

  /** The first line break of a marked element ends the progress statement. */
  lemma ProgressLineBreak(p: nat)
    ensures FirstNewline(ProgressLine(p) + Marker) == |ProgressLine(p)| - 1
  {
    var digits := NatToString(p);
    var body := ProgressHead + digits + "%\\n\")";
    assert NoBreak(ProgressHead);
    assert NoBreak("%\\n\")");
    assert NoBreak(digits) by {
      forall j | 0 <= j < |digits| ensures digits[j] != '\n' {
        assert IsDigit(digits[j]);
      }
    }
    NoBreakAppend(ProgressHead, digits);
    NoBreakAppend(ProgressHead + digits, "%\\n\")");
    assert ProgressLine(p) + Marker == body + ("\n" + Marker);
    FirstNewlineAppend(body, "\n" + Marker);
  }

  /** A marker with its progress statement in front: the marker is recovered intact,
      and the statement reports exactly `p`. */
  lemma MarkedLine(p: nat)
    ensures Original(ProgressLine(p) + Marker) == Marker
    ensures Reported(ProgressLine(p) + Marker) == Some(p)
  {
    var element := ProgressLine(p) + Marker;
    ProgressLineBreak(p);
    var k := FirstNewline(element);
    assert element[k + 1..] == Marker;
    var head := element[..k + 1];
    assert head == ProgressLine(p);
    assert StartsWith(head, ProgressHead) && EndsWith(head, ProgressTail) by {
      assert head[..|ProgressHead|] == ProgressHead;
      assert head[|head| - |ProgressTail|..] == ProgressTail;
    }
    assert head[|ProgressHead|..k + 1 - |ProgressTail|] == NatToString(p);
    ParseNatToString(p);
  }

  /** Line `i` of the script is element `i + 1` of the rewritten one: unchanged
      unless it is the marker, which keeps its text behind the progress statement
      for original index `i`. */
  lemma RewrittenAt(script: seq<string>, i: nat)
    requires i < |script|
    ensures EndsWith(Instrument(script)[i + 1], script[i])
    ensures script[i] != Marker ==> Instrument(script)[i + 1] == script[i]
    ensures script[i] == Marker ==>
      Instrument(script)[i + 1] == ProgressLine(Percent(i, |script|)) + Marker
  {
    var line := script[i];
    var element := Instrument(script)[i + 1];
    assert element == Rewrite(line, i, |script|);
    assert EndsWith(element, line);
  }

  /** Element `i + 1` of the rewritten script reports a percentage exactly when
      line `i` is a marker, and that percentage is the one of original index `i`. */
  lemma ReportedAt(script: seq<string>, i: nat)
    requires forall j :: 0 <= j < |script| ==> IsLine(script[j])
    requires i < |script|
    ensures Reported(Instrument(script)[i + 1]) ==
            if script[i] == Marker then Some(Percent(i, |script|)) else None
  {
    var element := Instrument(script)[i + 1];
    assert element == Rewrite(script[i], i, |script|);
    if script[i] == Marker {
      MarkedLine(Percent(i, |script|));
    } else {
      PlainLine(script[i]);
    }
  }

  /** Element `i + 1` of the rewritten script holds line `i` unchanged at its end. */
  lemma OriginalAt(script: seq<string>, i: nat)
    requires forall j :: 0 <= j < |script| ==> IsLine(script[j])
    requires i < |script|
    ensures Original(Instrument(script)[i + 1]) == script[i]
  {
    var element := Instrument(script)[i + 1];
    assert element == Rewrite(script[i], i, |script|);
    if script[i] == Marker {
      MarkedLine(Percent(i, |script|));
    } else {
      PlainLine(script[i]);
    }
  }

  /** Nothing is lost or changed by the rewrite: dropping the import line and the
      progress statements gives back the script that was read. */
  lemma InstrumentRoundTrip(script: seq<string>)
    requires forall j :: 0 <= j < |script| ==> IsLine(script[j])
    ensures Restore(Instrument(script)) == script
  {
    var out := Instrument(script);
    forall i | 0 <= i < |script| ensures Original(out[i + 1]) == script[i] {
      OriginalAt(script, i);
    }
    RestoreElementwise(out, script);
  }

  lemma RestoreElementwise(out: seq<string>, script: seq<string>)
    requires |out| == |script| + 1
    requires forall i :: 0 <= i < |script| ==> Original(out[i + 1]) == script[i]
    ensures Restore(out) == script
  {
  }

  /** As many progress statements are inserted as the script has markers, and the
      import line is not one of them. */
  lemma ProgressCount(script: seq<string>)
    requires forall j :: 0 <= j < |script| ==> IsLine(script[j])
    ensures |Filter(Instrument(script), IsProgress)| == |Filter(script, IsMarker)|
  {
    var out := Instrument(script);
    var rest := out[1..];
    PlainLine(ImportLine);
    assert out == [ImportLine] + rest;
    FilterAppend([ImportLine], rest, IsProgress);
    assert Filter([ImportLine], IsProgress) == [];
    forall i | 0 <= i < |script| ensures IsMarker(script[i]) <==> IsProgress(rest[i]) {
      assert rest[i] == out[i + 1];
      ReportedAt(script, i);
    }
    FilterPointwiseLength(script, IsMarker, rest, IsProgress);
  }

  /** Progress never decreases as the original index grows. */
  lemma PercentMonotone(i: nat, j: nat, n: nat)
    requires i <= j < n
    ensures Percent(i, n) <= Percent(j, n)
  {
    DivisionMonotone(100 * i, 100 * j, Percent(i, n), Percent(j, n), n);
  }

  /** The reported percentages lie in 0..99 and never decrease down the script. */
  lemma ProgressNonDecreasing(script: seq<string>, i: nat, j: nat)
    requires forall k :: 0 <= k < |script| ==> IsLine(script[k])
    requires i <= j < |script|
    requires script[i] == Marker && script[j] == Marker
    ensures Reported(Instrument(script)[i + 1]).Some?
    ensures Reported(Instrument(script)[j + 1]).Some?
    ensures Reported(Instrument(script)[i + 1]).value <= Reported(Instrument(script)[j + 1]).value < 100
  {
    ReportedAt(script, i);
    ReportedAt(script, j);
    PercentMonotone(i, j, |script|);
  }
}
