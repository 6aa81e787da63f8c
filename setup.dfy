/** A model of the packaging script's requirement reader, `get_requirements`.
    The script reads `requirements.txt` line by line, deletes every newline
    character from every line, and then drops the first `-e .` entry (the
    editable self-install marker pip understands, which is not a package).
    The file read is replaced by the sequence of lines it would produce. */
module Setup {

  const Newline: char := '\n'

  /** The editable self-install marker, compared by exact string equality. */
  const HyphenEDot: string := "-e ."

  /** `line.replace('\n', '')`: every newline character goes, wherever it is,
      and every other character stays, in order (see StripNewlinesConcat). */
  function StripNewlines(line: string): (r: string)
    ensures Newline !in r
    ensures Newline !in line ==> r == line
  {
    if line == [] then []
    else
      assert line == [line[0]] + line[1..];
      if line[0] == Newline then StripNewlines(line[1..])
      else [line[0]] + StripNewlines(line[1..])
  }

  /** The list comprehension over the lines `readlines()` returned. */
  function StripAll(lines: seq<string>): (r: seq<string>)
    ensures |r| == |lines|
    ensures forall i :: 0 <= i < |r| ==> Newline !in r[i]
  {
    seq(|lines|, i requires 0 <= i < |lines| => StripNewlines(lines[i]))
  }

  /** `if x in s: s.remove(x)`: the first entry equal to `x` is deleted;
      without one, the list is left as it is. The list is one entry shorter
      exactly when it held `x` (which entry goes: RemoveFirstShape). */
  function RemoveFirst(s: seq<string>, x: string): (r: seq<string>)
    ensures |r| == if x in s then |s| - 1 else |s|
  {
    if s == [] then []
    else if s[0] == x then s[1..]
    else [s[0]] + RemoveFirst(s[1..], x)
  }

  /** What `get_requirements` returns for the lines of the file: one entry
      per line, less one when some line strips to the marker (which entries:
      RequirementsWithMarker, RequirementsWithoutMarker). */
  function Requirements(lines: seq<string>): (r: seq<string>)
    ensures |r| == if HyphenEDot in StripAll(lines) then |lines| - 1 else |lines|
  {
    RemoveFirst(StripAll(lines), HyphenEDot)
  }

  /** `get_requirements`: strips the newlines, then, if the marker is among the
      stripped lines, searches for its first position (as `list.remove` does)
      and deletes the entry there. */
  method GetRequirements(lines: seq<string>) returns (requirements: seq<string>)
    ensures requirements == Requirements(lines)
  {
    requirements := StripAll(lines);
    if HyphenEDot in requirements {
      ghost var first := FirstIndex(requirements, HyphenEDot);
      var i := 0;
      while requirements[i] != HyphenEDot
        invariant 0 <= i <= first
        invariant forall j :: 0 <= j < i ==> requirements[j] != HyphenEDot
        decreases first - i
      {
        i := i + 1;
      }
      RemoveFirstAt(requirements, HyphenEDot, i);
      requirements := requirements[..i] + requirements[i + 1..];
    } else {
      RemoveFirstAbsent(requirements, HyphenEDot);
    }
  }

  // ---------------------------------------------------------------------
  // Newline stripping

  /** Stripping works piecewise: it keeps the order of the characters that
      survive. */
  lemma {:induction false} StripNewlinesConcat(a: string, b: string)
    ensures StripNewlines(a + b) == StripNewlines(a) + StripNewlines(b)
  {
    if a == [] {
      assert a + b == b;
    } else {
      assert (a + b)[0] == a[0];
      assert (a + b)[1..] == a[1..] + b;
      StripNewlinesConcat(a[1..], b);
      if a[0] == Newline {
        calc {
          StripNewlines(a + b);
          StripNewlines(a[1..] + b);
          StripNewlines(a[1..]) + StripNewlines(b);
          StripNewlines(a) + StripNewlines(b);
        }
      } else {
        calc {
          StripNewlines(a + b);
          [a[0]] + StripNewlines(a[1..] + b);
          [a[0]] + (StripNewlines(a[1..]) + StripNewlines(b));
          ([a[0]] + StripNewlines(a[1..])) + StripNewlines(b);
          StripNewlines(a) + StripNewlines(b);
        }
      }
    }
  }

  /** Every character other than a newline stays, as often as it occurs. */
  lemma {:induction false} StripNewlinesCounts(line: string)
    ensures multiset(StripNewlines(line)) == multiset(line)[Newline := 0]
  {
    if line != [] {
      assert line == [line[0]] + line[1..];
      StripNewlinesCounts(line[1..]);
    }
  }

  /** The length drops by exactly the number of newline characters. */
  lemma StripNewlinesLength(line: string)
    ensures |StripNewlines(line)| == |line| - multiset(line)[Newline]
  {
    var r := StripNewlines(line);
    StripNewlinesCounts(line);
    assert |multiset(r)| == |multiset(line)| - multiset(line)[Newline] by {
      var m := multiset(line);
      assert m == m[Newline := 0] + multiset{}[Newline := m[Newline]];
    }
  }

  // ---------------------------------------------------------------------
  // Removing the first match

  /** Without a match nothing is removed. */
  lemma {:induction false} RemoveFirstAbsent(s: seq<string>, x: string)
    requires x !in s
    ensures RemoveFirst(s, x) == s
  {
    if s != [] {
      assert x !in s[1..];
      RemoveFirstAbsent(s[1..], x);
    }
  }

  /** With the first match at `k`, exactly the entry at `k` is removed and the
      entries before and after it keep their order. */
  lemma {:induction false} RemoveFirstAt(s: seq<string>, x: string, k: nat)
    requires k < |s| && s[k] == x && x !in s[..k]
    ensures RemoveFirst(s, x) == s[..k] + s[k + 1..]
  {
    if k > 0 {
      assert s[0] == s[..k][0];
      assert s[1..][..k - 1] == s[1..k];
      assert forall j :: 0 <= j < k - 1 ==> s[1..k][j] == s[..k][j + 1];
      RemoveFirstAt(s[1..], x, k - 1);
      assert s[..k] == [s[0]] + s[1..][..k - 1];
      assert s[k + 1..] == s[1..][k..];
    }
  }

  /** The exact shape of `if x in s: s.remove(x)`: unchanged without a match,
      otherwise the first match deleted. */
  lemma RemoveFirstShape(s: seq<string>, x: string)
    ensures x !in s ==> RemoveFirst(s, x) == s
    ensures x in s ==> exists k :: 0 <= k < |s| && s[k] == x && x !in s[..k]
                                   && RemoveFirst(s, x) == s[..k] + s[k + 1..]
  {
    if x !in s {
      RemoveFirstAbsent(s, x);
    } else {
      var k := FirstIndex(s, x);
      RemoveFirstAt(s, x, k);
    }
  }

  /** The position of the first entry equal to `x`. */
  function FirstIndex(s: seq<string>, x: string): (k: nat)
    requires x in s
    ensures k < |s| && s[k] == x && x !in s[..k]
  {
    if s[0] == x then 0
    else
      var k := FirstIndex(s[1..], x);
      assert s[..k + 1] == [s[0]] + s[1..][..k];
      k + 1
  }

  /** One entry equal to `x` goes when there is one, every other entry
      stays, each as often as before. */
  lemma {:induction false} RemoveFirstCounts(s: seq<string>, x: string)
    ensures multiset(RemoveFirst(s, x)) ==
            if x in s then multiset(s) - multiset{x} else multiset(s)
  {
    if s != [] {
      assert s == [s[0]] + s[1..];
      RemoveFirstCounts(s[1..], x);
    }
  }

  // ---------------------------------------------------------------------
  // Properties of get_requirements

  /** No returned entry holds a newline, wherever it stood in the line. */
  lemma RequirementsHaveNoNewlines(lines: seq<string>)
    ensures forall i :: 0 <= i < |Requirements(lines)| ==> Newline !in Requirements(lines)[i]
  {
    var s := StripAll(lines);
    RemoveFirstCounts(s, HyphenEDot);
    forall i | 0 <= i < |Requirements(lines)|
      ensures Newline !in Requirements(lines)[i]
    {
      var e := Requirements(lines)[i];
      assert e in multiset(Requirements(lines));
      assert e in multiset(s);
    }
  }

  /** Without a marker line, every line comes back, in place, with only its
      newlines gone; blank lines come back as "". */
  lemma RequirementsWithoutMarker(lines: seq<string>)
    requires HyphenEDot !in StripAll(lines)
    ensures |Requirements(lines)| == |lines|
    ensures forall i :: 0 <= i < |lines| ==> Requirements(lines)[i] == StripNewlines(lines[i])
  {
    RemoveFirstAbsent(StripAll(lines), HyphenEDot);
  }

  /** With a marker line, the result is one entry shorter: the first line that
      strips to the marker is gone, the lines before and after it come back
      in their order with only their newlines gone. */
  lemma RequirementsWithMarker(lines: seq<string>)
    requires HyphenEDot in StripAll(lines)
    ensures |Requirements(lines)| == |lines| - 1
    ensures exists k :: 0 <= k < |lines| && StripNewlines(lines[k]) == HyphenEDot
                        && (forall j :: 0 <= j < k ==> StripNewlines(lines[j]) != HyphenEDot)
                        && (forall j :: 0 <= j < k ==> Requirements(lines)[j] == StripNewlines(lines[j]))
                        && (forall j :: k < j < |lines| ==> Requirements(lines)[j - 1] == StripNewlines(lines[j]))
  {
    var s := StripAll(lines);
    var k := FirstIndex(s, HyphenEDot);
    RemoveFirstAt(s, HyphenEDot, k);
    var r := Requirements(lines);
    assert r == s[..k] + s[k + 1..];
    assert |r| == |lines| - 1;
    forall j | 0 <= j < k
      ensures StripNewlines(lines[j]) != HyphenEDot
      ensures r[j] == StripNewlines(lines[j])
    {
      assert s[..k][j] == s[j];
    }
    forall j | k < j < |lines|
      ensures r[j - 1] == StripNewlines(lines[j])
    {
      assert s[k + 1..][j - 1 - k] == s[j];
    }
  }

  /** Only exact matches of the marker are removed: every other stripped line
      (a near-match such as "-e . " or "-e .\r", a blank line) is kept as
      often as it occurs. */
  lemma RequirementsKeepOtherEntries(lines: seq<string>, y: string)
    requires y != HyphenEDot
    ensures multiset(Requirements(lines))[y] == multiset(StripAll(lines))[y]
  {
    RemoveFirstCounts(StripAll(lines), HyphenEDot);
  }

  /** `list.remove` deletes one marker only: a second or later one remains. */
  lemma RequirementsKeepLaterMarkers(lines: seq<string>)
    requires HyphenEDot in StripAll(lines)
    ensures multiset(Requirements(lines))[HyphenEDot] == multiset(StripAll(lines))[HyphenEDot] - 1
  {
    RemoveFirstCounts(StripAll(lines), HyphenEDot);
  }

  /** With at most one marker line, no marker is left in the result. */
  lemma RequirementsDropSingleMarker(lines: seq<string>)
    requires multiset(StripAll(lines))[HyphenEDot] <= 1
    ensures HyphenEDot !in Requirements(lines)
  {
    RemoveFirstCounts(StripAll(lines), HyphenEDot);
    assert multiset(Requirements(lines))[HyphenEDot] == 0;
  }

  /** The usual line of the file: its one trailing newline goes, nothing
      else changes. */
  lemma StripTrailingNewline(line: string)
    requires Newline !in line
    ensures StripNewlines(line + [Newline]) == line
  {
    StripNewlinesConcat(line, [Newline]);
  }

  /** The lines of the worked example below, stripped. */
  lemma ExampleStripped()
    ensures StripAll(["flask\n", "-e . \n", "-e .\r\n", "\n", "-e .\n", "-e .\n"])
         == ["flask", "-e . ", "-e .\r", "", "-e .", "-e ."]
  {
    var lines := ["flask\n", "-e . \n", "-e .\r\n", "\n", "-e .\n", "-e .\n"];
    var s := ["flask", "-e . ", "-e .\r", "", "-e .", "-e ."];
    forall i | 0 <= i < 6
      ensures StripNewlines(lines[i]) == s[i]
    {
      assert lines[i] == s[i] + [Newline];
      StripTrailingNewline(s[i]);
    }
  }

  /** A worked sequence of lines: a package line, a near-match with a
      trailing blank, one with a carriage return and a blank line all
      survive; the first marker goes, the second stays. (Read from a real
      file in text mode, a `-e .` line ending in CRLF would arrive as
      "-e .\n" and be removed; that translation belongs to the file read.) */
  lemma RequirementsExample()
    ensures Requirements(["flask\n", "-e . \n", "-e .\r\n", "\n", "-e .\n", "-e .\n"])
         == ["flask", "-e . ", "-e .\r", "", "-e ."]
  {
    var s := ["flask", "-e . ", "-e .\r", "", "-e .", "-e ."];
    ExampleStripped();
    assert HyphenEDot !in s[..4];
    RemoveFirstAt(s, HyphenEDot, 4);
  }
}
