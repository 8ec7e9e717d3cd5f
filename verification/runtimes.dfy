/** The list of runtimes that count as outdated: the built-in default and the
    parse of the comma-separated `--old-runtimes` argument. */
module RuntimeList {
  import opened Sequences
  import opened Text
  import opened Documents

  const DefaultOldRuntimes: seq<string> := ["python3.9", "python3.8", "python3.7", "python3.6", "python2.7"]

  /** A runtime name as the parse produces it: non-empty, stripped, comma-free. */
  predicate CleanField(rt: string) {
    rt != [] && Stripped(rt) && ',' !in rt
  }

  /** `[rt.strip() for rt in arg.split(',') if rt.strip()]`. */
  function ParseOldRuntimes(arg: string): (r: seq<string>)
    ensures forall i :: 0 <= i < |r| ==> CleanField(r[i])
  {
    var pieces := Split(arg, ',');
    var r := StripNonBlank(pieces);
    assert forall x :: x in r ==> ',' !in x by {
      forall x | x in pieces ensures ',' !in x {
        var j :| 0 <= j < |pieces| && pieces[j] == x;
      }
      StripNonBlankKeepsOut(pieces, ',');
    }
    assert forall i :: 0 <= i < |r| ==> CleanField(r[i]) by {
      forall i | 0 <= i < |r| ensures CleanField(r[i]) {
        assert r[i] in r;
      }
    }
    r
  }

  /** The fields of a comma-joined argument are read back stripped and with the
      blank ones dropped, in their order. */
  lemma {:induction false} ParseFields(pieces: seq<string>)
    requires |pieces| >= 1
    requires forall i :: 0 <= i < |pieces| ==> ',' !in pieces[i]
    ensures ParseOldRuntimes(Join(pieces, ',')) == StripNonBlank(pieces)
  {
    SplitJoin(pieces, ',');
  }

  /** Joining clean runtime names with commas and parsing gives them back. */
  lemma {:induction false} ParseJoinRoundTrip(runtimes: seq<string>)
    requires forall i :: 0 <= i < |runtimes| ==> CleanField(runtimes[i])
    ensures ParseOldRuntimes(Join(runtimes, ',')) == runtimes
  {
    if |runtimes| == 0 {
      assert Join(runtimes, ',') == [];
      StripNonBlankDropsBlank([], []);
      assert Split([], ',') == [[]] + [];
    } else {
      ParseFields(runtimes);
      StripNonBlankClean(runtimes);
    }
  }

  /** The default of `--old-runtimes`, `",".join(DEFAULT_OLD_RUNTIMES)`, parses
      back to the default list. */
  lemma DefaultArgumentParsesToDefault()
    ensures ParseOldRuntimes(Join(DefaultOldRuntimes, ',')) == DefaultOldRuntimes
  {
    forall i | 0 <= i < |DefaultOldRuntimes| ensures CleanField(DefaultOldRuntimes[i]) {
      var rt := DefaultOldRuntimes[i];
      assert rt[0] == 'p' && rt[|rt| - 1] in "98762";
    }
    ParseJoinRoundTrip(DefaultOldRuntimes);
  }

  /** With the default list, `python3.9` is outdated while `python3.9.18` and
      `python3.10` are not: membership is exact, not by prefix. */
  lemma DefaultListMatchesExactly()
    ensures IsOutdatedStep(ScriptStep(ExecuteScript, "python3.9"), DefaultOldRuntimes)
    ensures !IsOutdatedStep(ScriptStep(ExecuteScript, "python3.9.18"), DefaultOldRuntimes)
    ensures !IsOutdatedStep(ScriptStep(ExecuteScript, "python3.10"), DefaultOldRuntimes)
  {
    RuntimeMatchIsExact(DefaultOldRuntimes, "python3.9", ExecuteScript);
    RuntimeMatchIsExact(DefaultOldRuntimes, "python3.9.18", ExecuteScript);
    RuntimeMatchIsExact(DefaultOldRuntimes, "python3.10", ExecuteScript);
  }
}
