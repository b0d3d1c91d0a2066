/** The candidate list handed to the picker: every entry name of the
    local mirror followed by a newline, with the very last character cut off
    (ssync.py:58-61). */
module Listing {
  import opened Text

  /** Every name followed by a newline, in listing order. */
  function Terminated(names: seq<string>): (s: string)
    ensures |names| > 0 ==> |s| > 0 && s[|s| - 1] == '\n'
  {
    if names == [] then "" else names[0] + "\n" + Terminated(names[1..])
  }

  /** The accumulated string with its final character dropped: every name
      followed by a newline, except that the last name loses its newline. */
  function CandidateList(names: seq<string>): (r: string)
    ensures names == [] ==> r == []
    ensures |names| > 0 ==> r + "\n" == Terminated(names)
  {
    var s := Terminated(names);
    assert names != [] ==> s[..|s| - 1] + "\n" == s;
    DropLast(s)
  }

  /** Python's `s.split("\n")`: the pieces between newlines; always at least one. */
  function Lines(s: string): (r: seq<string>)
    ensures |r| >= 1
  {
    if s == [] then [[]]
    else
      var rest := Lines(s[1..]);
      if s[0] == '\n' then [[]] + rest else [[s[0]] + rest[0]] + rest[1..]
  }

  predicate NoNewline(s: string)
  {
    forall k :: 0 <= k < |s| ==> s[k] != '\n'
  }

  lemma DropLastAppend(u: string, t: string)
    requires |t| > 0
    ensures DropLast(u + t) == u + DropLast(t)
  {
    assert (u + t)[..|u + t| - 1] == u + t[..|t| - 1];
  }

  /** An empty listing gives the empty candidate list; a single name gives
      the name itself; otherwise the first name, a newline, and the rest.
      Only the newline after the last name is lost. */
  lemma CandidateListShape(names: seq<string>)
    ensures names == [] ==> CandidateList(names) == ""
    ensures |names| == 1 ==> CandidateList(names) == names[0]
    ensures |names| > 1 ==> CandidateList(names) == names[0] + "\n" + CandidateList(names[1..])
  {
    if names != [] {
      var t := Terminated(names[1..]);
      var head := names[0] + "\n";
      assert Terminated(names) == head + t;
      if |names| == 1 {
        assert t == "";
        assert head + t == head;
        DropLastAppend(names[0], "\n");
      } else {
        DropLastAppend(head, t);
      }
    }
  }

  lemma {:induction false} LinesOfLine(a: string)
    requires NoNewline(a)
    ensures Lines(a) == [a]
    decreases |a|
  {
    if a != [] {
      LinesOfLine(a[1..]);
      assert [a[0]] + a[1..] == a;
    }
  }

  lemma {:induction false} LinesOfJoined(a: string, b: string)
    requires NoNewline(a)
    ensures Lines(a + "\n" + b) == [a] + Lines(b)
    decreases |a|
  {
    if a == [] {
      assert a + "\n" + b == "\n" + b;
      assert ("\n" + b)[1..] == b;
    } else {
      var s := a + "\n" + b;
      assert s[1..] == a[1..] + "\n" + b;
      LinesOfJoined(a[1..], b);
      assert [a[0]] + a[1..] == a;
    }
  }

  /** Splitting the candidate list at its newlines gives back the listing,
      as long as the listing is not empty and no name holds a newline. */
  lemma {:induction false} SplitCandidateList(names: seq<string>)
    requires |names| > 0
    requires forall k :: 0 <= k < |names| ==> NoNewline(names[k])
    ensures Lines(CandidateList(names)) == names
    decreases |names|
  {
    CandidateListShape(names);
    if |names| == 1 {
      LinesOfLine(names[0]);
    } else {
      SplitCandidateList(names[1..]);
      LinesOfJoined(names[0], CandidateList(names[1..]));
      assert [names[0]] + names[1..] == names;
    }
  }
}
