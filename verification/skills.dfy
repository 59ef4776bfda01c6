/**
 The skill-list normaliser (`normalize_skills`): whatever shape the stored
 `skills_list` cell has, the result is a list of non-empty, stripped skill
 names.
 */
module Skills {
  import opened Text

  /** The shapes a stored skills cell can take. Elements of a list, tuple or
      array are given by their `str()` rendering. */
  datatype SkillsValue =
    | Missing                     // a float NaN, pandas' missing value
    | Str(text: string)           // a single string
    | ListOf(items: seq<string>)  // a Python list
    | TupleOf(items: seq<string>) // a Python tuple
    | ArrayOf(items: seq<string>) // a value with `tolist()`, such as a numpy array of strings
    | Other                       // anything else: None, a number, a dict, ...
  {
    /** The shapes whose elements are cleaned one by one. */
    predicate IsListLike() {
      ListOf? || TupleOf? || ArrayOf?
    }
  }

  /** A skill name as the normaliser emits it for list input: non-empty, without
      surrounding whitespace and without upper-case letters. */
  predicate CleanSkill(s: string) {
    s != "" && Trimmed(s) && forall k :: 0 <= k < |s| ==> !IsUpperLetter(s[k])
  }

  /** The list comprehension over list and tuple elements: each element
      stripped and lower-cased, blank ones dropped, order kept. */
  function CleanEach(items: seq<string>): (r: seq<string>)
    ensures |r| <= |items|
  {
    if |items| == 0 then []
    else
      var s := Strip(items[0]);
      (if s != "" then [Lower(s)] else []) + CleanEach(items[1..])
  }

  /** Every element the comprehension emits is a clean skill name. */
  lemma {:induction false} CleanEachClean(items: seq<string>)
    ensures forall i :: 0 <= i < |CleanEach(items)| ==> CleanSkill(CleanEach(items)[i])
  {
    if |items| > 0 {
      var rest := CleanEach(items[1..]);
      assert forall i :: 0 <= i < |rest| ==> CleanSkill(rest[i]) by {
        CleanEachClean(items[1..]);
      }
      if Strip(items[0]) != "" {
        var h := Lower(Strip(items[0]));
        assert CleanSkill(h) by {
          CleanedIsClean(items[0]);
        }
        assert CleanEach(items) == [h] + rest;
        AllCleanCons(h, rest);
      } else {
        assert CleanEach(items) == rest;
      }
    }
  }

  lemma AllCleanCons(h: string, rest: seq<string>)
    requires CleanSkill(h)
    requires forall i :: 0 <= i < |rest| ==> CleanSkill(rest[i])
    ensures forall i :: 0 <= i < |[h] + rest| ==> CleanSkill(([h] + rest)[i])
  {
    var r := [h] + rest;
    forall i | 0 <= i < |r|
      ensures CleanSkill(r[i])
    {
      if i > 0 {
        assert r[i] == rest[i - 1];
      }
    }
  }

  /** `normalize_skills`. */
  function NormalizeSkills(v: SkillsValue): (r: seq<string>)
    ensures v.Missing? || v.Other? ==> r == []
    ensures v.Str? ==> |r| <= 1 && (r == [] <==> AllSpace(v.text))
    ensures v.Str? && r != [] ==> r[0] == Strip(v.text)
    ensures v.IsListLike() ==> r == CleanEach(v.items)
    ensures forall i :: 0 <= i < |r| ==> r[i] != "" && Trimmed(r[i])
  {
    match v
    case Missing => []
    case Str(text) => if Strip(text) != "" then [Strip(text)] else []
    case ListOf(items) => CleanEachClean(items); CleanEach(items)
    case TupleOf(items) => CleanEachClean(items); CleanEach(items)
    case ArrayOf(items) => CleanEachClean(items); CleanEach(items)
    case Other => []
  }

  /** A string keeps its letter case, while the same text inside a list is
      lower-cased: the two shapes disagree whenever the stripped text has an
      upper-case letter. */
  lemma StringKeepsCase(t: string)
    requires exists k :: 0 <= k < |Strip(t)| && IsUpperLetter(Strip(t)[k])
    ensures NormalizeSkills(Str(t)) == [Strip(t)]
    ensures NormalizeSkills(Str(t)) != NormalizeSkills(ListOf([t]))
  {
    var k :| 0 <= k < |Strip(t)| && IsUpperLetter(Strip(t)[k]);
    assert [t][1..] == [];
    assert Lower(Strip(t))[k] != Strip(t)[k];
  }

  lemma CleanedIsClean(item: string)
    requires Strip(item) != ""
    ensures CleanSkill(Lower(Strip(item)))
  {
    LowerKeepsTrimmed(Strip(item));
  }

  /** `x` is the cleaned form of some non-blank element of `items`. */
  ghost predicate CleanedFrom(items: seq<string>, x: string) {
    exists j :: 0 <= j < |items| && !AllSpace(items[j]) && x == Lower(Strip(items[j]))
  }

  lemma CleanedFromTail(items: seq<string>, x: string)
    requires |items| > 0 && CleanedFrom(items[1..], x)
    ensures CleanedFrom(items, x)
  {
    var j :| 0 <= j < |items[1..]| && !AllSpace(items[1..][j]) && x == Lower(Strip(items[1..][j]));
    assert items[j + 1] == items[1..][j];
  }

  /** Every cleaned element comes from a non-blank input element. */
  lemma {:induction false} CleanEachSources(items: seq<string>)
    ensures forall x :: x in CleanEach(items) ==> CleanedFrom(items, x)
  {
    if |items| > 0 {
      var rest := CleanEach(items[1..]);
      assert forall x :: x in rest ==> CleanedFrom(items[1..], x) by {
        CleanEachSources(items[1..]);
      }
      forall x | x in CleanEach(items)
        ensures CleanedFrom(items, x)
      {
        if x in rest {
          CleanedFromTail(items, x);
        } else {
          assert !AllSpace(items[0]) && x == Lower(Strip(items[0]));
        }
      }
    }
  }

  /** Every non-blank input element is represented, stripped and lower-cased. */
  lemma {:induction false} CleanEachKeeps(items: seq<string>)
    ensures forall j :: 0 <= j < |items| && !AllSpace(items[j]) ==> Lower(Strip(items[j])) in CleanEach(items)
  {
    if |items| > 0 {
      CleanEachKeeps(items[1..]);
      forall j | 0 <= j < |items| && !AllSpace(items[j])
        ensures Lower(Strip(items[j])) in CleanEach(items)
      {
        if j > 0 {
          assert items[1..][j - 1] == items[j];
        }
      }
    }
  }

  lemma CleanEachConsTrimmed(items: seq<string>)
    requires |items| > 0 && items[0] != "" && Trimmed(items[0])
    ensures CleanEach(items) == [Lower(items[0])] + CleanEach(items[1..])
  {
    StripTrimmed(items[0]);
  }

  /** Cleaning elements that are already stripped and non-empty only lower-cases them. */
  lemma {:induction false} CleanEachOfTrimmed(items: seq<string>)
    requires forall i :: 0 <= i < |items| ==> items[i] != "" && Trimmed(items[i])
    ensures CleanEach(items) == LowerEach(items)
  {
    if |items| > 0 {
      var tail := items[1..];
      assert forall i :: 0 <= i < |tail| ==> tail[i] != "" && Trimmed(tail[i]) by {
        assert forall i :: 0 <= i < |tail| ==> tail[i] == items[i + 1];
      }
      CleanEachOfTrimmed(tail);
      CleanEachConsTrimmed(items);
      LowerEachCons(items);
    }
  }

  lemma LowerEachOfClean(ws: seq<string>)
    requires forall i :: 0 <= i < |ws| ==> CleanSkill(ws[i])
    ensures LowerEach(ws) == ws
  {
    forall i | 0 <= i < |ws|
      ensures Lower(ws[i]) == ws[i]
    {
      assert CleanSkill(ws[i]);
    }
  }

  /** Feeding the normaliser its own output as a list lower-cases it and changes
      nothing else; for list, tuple and array input this is idempotence. */
  lemma NormalizeSkillsAgain(v: SkillsValue)
    ensures NormalizeSkills(ListOf(NormalizeSkills(v))) == LowerEach(NormalizeSkills(v))
    ensures v.IsListLike() ==> NormalizeSkills(ListOf(NormalizeSkills(v))) == NormalizeSkills(v)
  {
    var r := NormalizeSkills(v);
    CleanEachOfTrimmed(r);
    if v.IsListLike() {
      CleanEachClean(v.items);
      LowerEachOfClean(r);
    }
  }
}
