/**
 * `format_known_vulnerabilities`: the known-vulnerability catalog entries
 * as the numbered list the analysis prompt shows.
 */
module Runner {
  import opened Seqs
  import opened Text

  /** The text shown when no entry is left. */
  const NoneDocumented: string := "\n- None documented."

  /** The entries kept: each one stripped, the blank ones dropped, in input order. */
  function Entries(vulnerabilities: seq<string>): (r: seq<string>)
    ensures |r| <= |vulnerabilities|
  {
    if vulnerabilities == [] then []
    else
      var kept := Entries(vulnerabilities[..|vulnerabilities| - 1]);
      var entry := Strip(vulnerabilities[|vulnerabilities| - 1]);
      if entry == "" then kept else kept + [entry]
  }

  /** Keeping entries of a longer list keeps those of each part, in order. */
  lemma {:induction false} EntriesAppend(a: seq<string>, b: seq<string>)
    ensures Entries(a + b) == Entries(a) + Entries(b)
  {
    if b == [] {
      assert a + b == a;
    } else {
      var init, last := b[..|b| - 1], b[|b| - 1];
      var entry := Strip(last);
      assert (a + b)[..|a + b| - 1] == a + init && (a + b)[|a + b| - 1] == last;
      EntriesAppend(a, init);
      if entry != "" {
        Seqs.Regroup3(Entries(a), Entries(init), [entry]);
      }
    }
  }

  /** Every entry kept is non-blank and already stripped. */
  lemma {:induction false} EntriesStripped(vulnerabilities: seq<string>)
    ensures forall k :: 0 <= k < |Entries(vulnerabilities)| ==>
      Entries(vulnerabilities)[k] != "" && Strip(Entries(vulnerabilities)[k]) == Entries(vulnerabilities)[k]
  {
    if vulnerabilities != [] {
      EntriesStripped(vulnerabilities[..|vulnerabilities| - 1]);
      var entry := Strip(vulnerabilities[|vulnerabilities| - 1]);
      StripSpec(vulnerabilities[|vulnerabilities| - 1]);
      StripIdempotent(entry);
    }
  }

  /** Line `n` of the list: four spaces, the number, a dot, a space and the entry. */
  function Line(n: nat, entry: string): (r: string)
    ensures |r| == 4 + |NatToString(n)| + 2 + |entry|
    ensures r[..4] == "    " && r[4..4 + |NatToString(n)|] == NatToString(n)
    ensures r[4 + |NatToString(n)|..|r| - |entry|] == ". " && r[|r| - |entry|..] == entry
    ensures '\n' !in entry ==> '\n' !in r
  {
    "    " + NatToString(n) + ". " + entry
  }

  /** The lines for `entries`, numbered from 1 in order. */
  function NumberedLines(entries: seq<string>): (r: seq<string>)
    ensures |r| == |entries|
    ensures forall i :: 0 <= i < |entries| ==> r[i] == Line(i + 1, entries[i])
  {
    if entries == [] then []
    else NumberedLines(entries[..|entries| - 1]) + [Line(|entries|, entries[|entries| - 1])]
  }

  /**
   * `format_known_vulnerabilities`: a newline and then the numbered lines
   * of the entries kept, one per line, or the fallback text when none is
   * kept.
   */
  function FormatKnownVulnerabilities(vulnerabilities: seq<string>): (r: string)
    ensures r != [] && r[0] == '\n'
    ensures r == NoneDocumented <==> Entries(vulnerabilities) == []
  {
    var entries := Entries(vulnerabilities);
    if entries == [] then NoneDocumented
    else
      var lines := NumberedLines(entries);
      assert ("\n" + Join(lines, "\n"))[1] != NoneDocumented[1] by {
        JoinHead(lines, "\n");
        assert lines[0][0] == ' ';
        assert Join(lines, "\n")[0] == lines[0][0];
      }
      "\n" + Join(lines, "\n")
  }

  /** A blank entry changes nothing. */
  lemma FormatBlank(vulnerabilities: seq<string>, entry: string)
    requires Strip(entry) == ""
    ensures FormatKnownVulnerabilities(vulnerabilities + [entry]) == FormatKnownVulnerabilities(vulnerabilities)
  {
    EntriesAppend(vulnerabilities, [entry]);
    assert Entries([entry]) == [] by {
      assert [entry][..0] == [];
    }
    assert Entries(vulnerabilities) + [] == Entries(vulnerabilities);
  }

  /** The first non-blank entry becomes line 1, stripped. */
  lemma FormatFirst(vulnerabilities: seq<string>, entry: string)
    requires Entries(vulnerabilities) == [] && Strip(entry) != ""
    ensures FormatKnownVulnerabilities(vulnerabilities + [entry]) == "\n" + Line(1, Strip(entry))
  {
    EntriesAppend(vulnerabilities, [entry]);
    assert Entries([entry]) == [Strip(entry)] by {
      assert [entry][..0] == [];
    }
    assert [] + [Strip(entry)] == [Strip(entry)];
    var lines := NumberedLines([Strip(entry)]);
    assert lines == [Line(1, Strip(entry))];
  }

  /** Each further non-blank entry adds one line, numbered one past the last. */
  lemma FormatAppend(vulnerabilities: seq<string>, entry: string)
    requires Entries(vulnerabilities) != [] && Strip(entry) != ""
    ensures FormatKnownVulnerabilities(vulnerabilities + [entry])
      == FormatKnownVulnerabilities(vulnerabilities) + "\n" + Line(|Entries(vulnerabilities)| + 1, Strip(entry))
  {
    var entries := Entries(vulnerabilities);
    var longer := entries + [Strip(entry)];
    assert Entries(vulnerabilities + [entry]) == longer by {
      EntriesAppend(vulnerabilities, [entry]);
      assert [entry][..0] == [];
    }
    var lines := NumberedLines(entries);
    var line := Line(|entries| + 1, Strip(entry));
    assert NumberedLines(longer) == lines + [line] by {
      assert longer[..|longer| - 1] == entries;
    }
    JoinOneMore(lines, line);
  }

  /** Joining one more line onto a newline-led block appends a newline and that line. */
  lemma JoinOneMore(lines: seq<string>, line: string)
    requires lines != []
    ensures "\n" + Join(lines + [line], "\n") == ("\n" + Join(lines, "\n")) + "\n" + line
  {
    JoinSnoc(lines, line, "\n");
    Seqs.Regroup("\n", Join(lines, "\n"), "\n", line);
  }
}
