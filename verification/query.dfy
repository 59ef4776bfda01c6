/**
 The query normaliser (`preprocess_query`): the raw query is lower-cased, its
 maximal runs of ASCII letters are extracted left to right, and the runs are
 joined with single spaces. Everything that is not a letter only separates
 tokens.
 */
module Query {
  import opened Text

  /** A token of the raw query: a non-empty run of ASCII letters. */
  predicate IsWord(w: string) {
    |w| > 0 && forall i :: 0 <= i < |w| ==> IsAsciiLetter(w[i])
  }

  /** A token of a normalised query: a non-empty run of lower-case letters. */
  predicate IsLowerWord(w: string) {
    |w| > 0 && forall i :: 0 <= i < |w| ==> IsLowerLetter(w[i])
  }

  predicate HasLetter(s: string) {
    exists i :: 0 <= i < |s| && IsAsciiLetter(s[i])
  }

  /** The shape of every normalised query: lower-case letters and single spaces,
      with no space at either end and no two spaces in a row. */
  predicate Canonical(s: string) {
    && (forall i :: 0 <= i < |s| ==> IsLowerLetter(s[i]) || s[i] == ' ')
    && (|s| > 0 ==> s[0] != ' ' && s[|s| - 1] != ' ')
    && (forall i :: 0 <= i < |s| - 1 && s[i] == ' ' ==> s[i + 1] != ' ')
  }

  /** Length of the run of letters that `s` starts with. */
  function RunLength(s: string): (n: nat)
    ensures n <= |s|
    ensures forall i :: 0 <= i < n ==> IsAsciiLetter(s[i])
    ensures n < |s| ==> !IsAsciiLetter(s[n])
  {
    if |s| == 0 || !IsAsciiLetter(s[0]) then 0 else 1 + RunLength(s[1..])
  }

  /** `re.findall(r"[a-zA-Z]+", s)`: the maximal letter runs of `s`, left to right. */
  function Runs(s: string): (ws: seq<string>)
    ensures forall i :: 0 <= i < |ws| ==> IsWord(ws[i])
    decreases |s|
  {
    if |s| == 0 then []
    else if !IsAsciiLetter(s[0]) then Runs(s[1..])
    else
      var n := RunLength(s);
      [s[..n]] + Runs(s[n..])
  }

  /** `" ".join(ws)`. */
  function Join(ws: seq<string>): string {
    if |ws| == 0 then ""
    else if |ws| == 1 then ws[0]
    else ws[0] + " " + Join(ws[1..])
  }

  /** `preprocess_query`: the normalised form of a raw query. */
  function Normalize(query: string): (r: string)
    ensures Canonical(r)
    ensures r == "" <==> !HasLetter(query)
    ensures Runs(r) == Runs(Lower(query))
  {
    var ws := Runs(Lower(query));
    LowerRunsAreLowerWords(Lower(query));
    JoinCanonical(ws);
    RunsEmptyIff(Lower(query));
    LowerHasLetter(query);
    RunsOfJoin(ws);
    Join(ws)
  }

  /** The tokens of the normalised query are the raw query's letter runs,
      lower-cased, in their original order. */
  lemma NormalizeTokens(query: string)
    ensures Runs(Normalize(query)) == LowerEach(Runs(query))
  {
    RunsOfLower(query);
  }

  /** Normalising a normalised query changes nothing. */
  lemma NormalizeIdempotent(query: string)
    ensures Normalize(Normalize(query)) == Normalize(query)
  {
    var r := Normalize(query);
    LowerCanonical(r);
    RunsOfJoin(Runs(Lower(query)));
  }

  /** A string without upper-case letters is its own lower-case form. */
  lemma LowerCanonical(s: string)
    requires Canonical(s)
    ensures Lower(s) == s
  {
  }

  lemma LowerHasLetter(s: string)
    ensures HasLetter(Lower(s)) <==> HasLetter(s)
  {
    if HasLetter(s) {
      var i :| 0 <= i < |s| && IsAsciiLetter(s[i]);
      assert IsAsciiLetter(Lower(s)[i]);
    }
  }

  /** A string has no letter runs exactly when it has no letters. */
  lemma {:induction false} RunsEmptyIff(s: string)
    ensures Runs(s) == [] <==> !HasLetter(s)
    decreases |s|
  {
    if |s| > 0 && !IsAsciiLetter(s[0]) {
      RunsEmptyIff(s[1..]);
      if HasLetter(s) {
        var i :| 0 <= i < |s| && IsAsciiLetter(s[i]);
        assert s[1..][i - 1] == s[i];
      }
      if HasLetter(s[1..]) {
        var i :| 0 <= i < |s[1..]| && IsAsciiLetter(s[1..][i]);
        assert s[i + 1] == s[1..][i];
      }
    }
  }

  /** The runs of a string without upper-case letters are lower-case words. */
  lemma {:induction false} LowerRunsAreLowerWords(s: string)
    requires forall i :: 0 <= i < |s| ==> !IsUpperLetter(s[i])
    ensures forall i :: 0 <= i < |Runs(s)| ==> IsLowerWord(Runs(s)[i])
    decreases |s|
  {
    if |s| > 0 {
      if !IsAsciiLetter(s[0]) {
        LowerRunsAreLowerWords(s[1..]);
      } else {
        var n := RunLength(s);
        LowerRunsAreLowerWords(s[n..]);
        assert IsLowerWord(s[..n]);
      }
    }
  }

  /** Joining lower-case words gives a canonical string, empty only when there
      are no words. */
  lemma {:induction false} JoinCanonical(ws: seq<string>)
    requires forall i :: 0 <= i < |ws| ==> IsLowerWord(ws[i])
    ensures Canonical(Join(ws))
    ensures Join(ws) == "" <==> ws == []
  {
    if |ws| == 1 {
      assert IsLowerWord(ws[0]);
    } else if |ws| > 1 {
      var w := ws[0];
      assert IsLowerWord(w);
      JoinCanonical(ws[1..]);
      var rest := Join(ws[1..]);
      var s := w + " " + rest;
      assert Join(ws) == s;
      forall i | 0 <= i < |s|
        ensures IsLowerLetter(s[i]) || s[i] == ' '
      {
        if i > |w| {
          assert s[i] == rest[i - |w| - 1];
        }
      }
      forall i | 0 <= i < |s| - 1 && s[i] == ' '
        ensures s[i + 1] != ' '
      {
        if i == |w| {
          assert s[i + 1] == rest[0];
        } else if i > |w| {
          assert s[i] == rest[i - |w| - 1];
          assert s[i + 1] == rest[i - |w|];
        }
      }
      assert s[|s| - 1] == rest[|rest| - 1];
    }
  }

  /** Splitting joined words into letter runs gives the words back. */
  lemma {:induction false} RunsOfJoin(ws: seq<string>)
    requires forall i :: 0 <= i < |ws| ==> IsWord(ws[i])
    ensures Runs(Join(ws)) == ws
  {
    if |ws| == 1 {
      var w := ws[0];
      assert IsWord(w);
      assert RunLength(w) == |w|;
      assert w[..|w|] == w;
      assert Runs(w[|w|..]) == [];
    } else if |ws| > 1 {
      var w := ws[0];
      assert IsWord(w);
      var rest := Join(ws[1..]);
      var s := w + " " + rest;
      assert Join(ws) == s;
      assert s[|w|] == ' ';
      assert forall i :: 0 <= i < |w| ==> s[i] == w[i];
      assert RunLength(s) == |w|;
      assert s[..|w|] == w;
      assert s[|w|..][1..] == rest;
      assert Runs(s[|w|..]) == Runs(rest);
      RunsOfJoin(ws[1..]);
      assert ws == [w] + ws[1..];
    }
  }

  /** The letters of `s` in order, everything else dropped. */
  function Letters(s: string): (r: string)
    ensures |r| <= |s|
    ensures forall i :: 0 <= i < |r| ==> IsAsciiLetter(r[i])
    ensures HasLetter(s) ==> |r| > 0
  {
    if |s| == 0 then ""
    else if IsAsciiLetter(s[0]) then [s[0]] + Letters(s[1..])
    else Letters(s[1..])
  }

  /** The runs laid end to end. */
  function Concat(ws: seq<string>): string {
    if |ws| == 0 then "" else ws[0] + Concat(ws[1..])
  }

  /** A leading block of letters passes through `Letters` unchanged. */
  lemma {:induction false} LettersOfBlock(s: string, k: nat)
    requires k <= |s|
    requires forall i :: 0 <= i < k ==> IsAsciiLetter(s[i])
    ensures Letters(s) == s[..k] + Letters(s[k..])
    decreases k
  {
    if k > 0 {
      LettersOfBlock(s[1..], k - 1);
      assert s[1..][k - 1..] == s[k..];
      assert [s[0]] + s[1..][..k - 1] == s[..k];
    }
  }

  /** Nothing but letters is kept and no letter is lost: the runs, laid end to
      end, are the letters of `s` in their original order. */
  lemma {:induction false} RunsConcat(s: string)
    ensures Concat(Runs(s)) == Letters(s)
    decreases |s|
  {
    if |s| > 0 {
      if !IsAsciiLetter(s[0]) {
        RunsConcat(s[1..]);
      } else {
        var n := RunLength(s);
        var ws := [s[..n]] + Runs(s[n..]);
        assert ws[1..] == Runs(s[n..]);
        RunsConcat(s[n..]);
        LettersOfBlock(s, n);
      }
    }
  }

  /** Every non-letter ends a run: the runs of `s` are the runs before any
      non-letter position followed by the runs after it, so no run reaches
      across a non-letter. With `RunsConcat` and `Runs(w) == [w]` for a word
      (`RunsOfJoin` on `[w]`), this pins the runs down as the maximal ones. */
  lemma {:induction false} RunsSplitAt(s: string, i: nat)
    requires i < |s| && !IsAsciiLetter(s[i])
    ensures Runs(s) == Runs(s[..i]) + Runs(s[i + 1..])
    decreases |s|
  {
    if !IsAsciiLetter(s[0]) {
      if i > 0 {
        RunsSplitAt(s[1..], i - 1);
        assert s[1..][..i - 1] == s[..i][1..];
        assert s[1..][i..] == s[i + 1..];
      }
    } else {
      var n := RunLength(s);
      var p := s[..i];
      assert RunLength(p) == n by {
        assert forall j :: 0 <= j < |p| ==> p[j] == s[j];
      }
      RunsSplitAt(s[n..], i - n);
      assert s[n..][..i - n] == p[n..];
      assert s[n..][i - n + 1..] == s[i + 1..];
      assert p[..n] == s[..n];
    }
  }

  /** Lower-casing does not move the end of the leading letter run. */
  lemma RunLengthLower(s: string)
    ensures RunLength(Lower(s)) == RunLength(s)
  {
  }

  lemma LowerSplit(s: string, n: nat)
    requires n <= |s|
    ensures Lower(s)[..n] == Lower(s[..n])
    ensures Lower(s)[n..] == Lower(s[n..])
  {
  }

  /** The letter runs of the lower-cased string are the lower-cased letter runs. */
  lemma {:induction false} RunsOfLower(s: string)
    ensures Runs(Lower(s)) == LowerEach(Runs(s))
    decreases |s|
  {
    if |s| > 0 {
      var t := Lower(s);
      if !IsAsciiLetter(s[0]) {
        assert t[1..] == Lower(s[1..]);
        RunsOfLower(s[1..]);
      } else {
        var n := RunLength(s);
        RunLengthLower(s);
        LowerSplit(s, n);
        RunsOfLower(s[n..]);
        var ws := [s[..n]] + Runs(s[n..]);
        LowerEachCons(ws);
        assert ws[1..] == Runs(s[n..]);
      }
    }
  }

  /** Digits and punctuation only separate; a blank query normalises to "". */
  lemma NormalizeExamples()
    ensures Normalize("Quantum-2024!!") == "quantum"
    ensures Normalize("  ") == ""
  {
    assert !HasLetter("  ");
    var s := "Quantum-2024!!";
    var t := Lower(s);
    assert t == "quantum-2024!!" by {
      assert LowerChar('Q') == 'q';
    }
    assert !IsAsciiLetter(t[7]);
    assert forall i :: 0 <= i < 7 ==> IsAsciiLetter(t[i]);
    assert RunLength(t) == 7;
    assert t[..7] == "quantum";
    assert !HasLetter(t[7..]);
    RunsEmptyIff(t[7..]);
  }
}
