/** boolValue: turns an option value into false (0), true (1) or invalid (-1). */
module BoolValue {
  import opened Alloc
  import opened CType

  /** The lookup table of boolValue, false word before true word in each pair. */
  const BoolValues: seq<string> :=
    ["0", "1", "n", "y", "no", "yes", "off", "on", "false", "true", "disabled", "enabled"]

  /** The false words and the true words of the table. */
  const FalseWords: set<string> := {"0", "n", "no", "off", "false", "disabled"}
  const TrueWords: set<string> := {"1", "y", "yes", "on", "true", "enabled"}

  /** What boolValue promises: NULL is true, then a case-insensitive match against the word lists. */
  function Meaning(value: Option<string>): (r: int)
    ensures r == -1 || r == 0 || r == 1
    ensures value.None? ==> r == 1
  {
    match value
    case None => 1
    case Some(v) =>
      var w := Lower(v);
      if w in FalseWords then 0 else if w in TrueWords then 1 else -1
  }

  /** An entry of the table is a false word exactly at an even index and a true word exactly at an odd one. */
  lemma TableParity(i: nat)
    requires i < |BoolValues|
    ensures BoolValues[i] in FalseWords <==> i % 2 == 0
    ensures BoolValues[i] in TrueWords <==> i % 2 == 1
  {
    assert i in {0, 1, 2, 3, 4, 5, 6, 7, 8, 9, 10, 11};
  }

  /** The table holds every false word and every true word. */
  lemma TableCoversWords(w: string)
    requires w in FalseWords || w in TrueWords
    ensures exists i :: 0 <= i < |BoolValues| && BoolValues[i] == w
  {
    if w == "0" { assert BoolValues[0] == w; }
    else if w == "1" { assert BoolValues[1] == w; }
    else if w == "n" { assert BoolValues[2] == w; }
    else if w == "y" { assert BoolValues[3] == w; }
    else if w == "no" { assert BoolValues[4] == w; }
    else if w == "yes" { assert BoolValues[5] == w; }
    else if w == "off" { assert BoolValues[6] == w; }
    else if w == "on" { assert BoolValues[7] == w; }
    else if w == "false" { assert BoolValues[8] == w; }
    else if w == "true" { assert BoolValues[9] == w; }
    else if w == "disabled" { assert BoolValues[10] == w; }
    else { assert BoolValues[11] == w; }
  }

  /**
   * boolValue as util.c runs it: lower-case a heap copy of the value in place,
   * then scan the table with a counter; the parity of the matching index is the answer.
   */
  method BoolValueOf(value: Option<string>) returns (r: int)
    ensures r == Meaning(value)
    ensures r in {-1, 0, 1}
  {
    if value.None? {
      return 1;
    }
    var v := value.value;
    var buf := new char[|v|];
    var i := 0;
    while i < |v|
      invariant 0 <= i <= |v|
      invariant forall j :: 0 <= j < i ==> buf[j] == v[j]
    {
      buf[i] := v[i];
      i := i + 1;
    }
    i := 0;
    while i < buf.Length
      invariant 0 <= i <= buf.Length
      invariant forall j :: 0 <= j < i ==> buf[j] == ToLower(v[j])
      invariant forall j :: i <= j < buf.Length ==> buf[j] == v[j]
    {
      buf[i] := ToLower(buf[i]);
      i := i + 1;
    }
    assert buf[..] == Lower(v);
    i := 0;
    while i < |BoolValues| && buf[..] != BoolValues[i]
      invariant 0 <= i <= |BoolValues|
      invariant forall j :: 0 <= j < i ==> BoolValues[j] != Lower(v)
    {
      i := i + 1;
    }
    if i < |BoolValues| {
      TableParity(i);
      r := i % 2;
    } else {
      if Lower(v) in FalseWords || Lower(v) in TrueWords {
        TableCoversWords(Lower(v));
        assert false;
      }
      r := -1;
    }
  }

  /** The result does not depend on the case of the input. */
  lemma MeaningIgnoresCase(v: string)
    ensures Meaning(Some(v)) == Meaning(Some(Lower(v)))
  {
    LowerIdempotent(v);
  }

  /** Both directions of the word lookup, and nothing else is accepted. */
  lemma MeaningCases(value: Option<string>)
    ensures Meaning(value) in {-1, 0, 1}
    ensures value.None? ==> Meaning(value) == 1
    ensures value.Some? ==> (Meaning(value) == 0 <==> Lower(value.value) in FalseWords)
    ensures value.Some? ==> (Meaning(value) == 1 <==> Lower(value.value) in TrueWords)
    ensures value.Some? ==> (Meaning(value) == -1 <==> Lower(value.value) !in FalseWords + TrueWords)
  {
    assert FalseWords * TrueWords == {} by {
      forall w | w in FalseWords ensures w !in TrueWords { }
    }
  }

  lemma TrueExamples()
    ensures Meaning(Some("YES")) == 1 && Meaning(Some("On")) == 1 && Meaning(None) == 1
  {
    assert Lower("YES") == "yes";
    assert Lower("On") == "on";
  }

  lemma FalseExamples()
    ensures Meaning(Some("0")) == 0 && Meaning(Some("no")) == 0
  {
    assert Lower("0") == "0";
    assert Lower("no") == "no";
  }

  lemma InvalidExample()
    ensures Meaning(Some("maybe")) == -1
  {
    var w := Lower("maybe");
    assert w == "maybe";
    assert w !in FalseWords by { assert w[0] == 'm'; }
    assert w !in TrueWords by { assert w[0] == 'm'; }
  }
}
