/** The sidebar's ingredient list: the comma-separated text the user typed,
    turned into the list of ingredient names sent to the recipe search. */
module Ingredients {
  import opened Text

  /** A string with no upper-case ASCII letter. */
  predicate IsLowerCase(s: string)
  {
    forall i :: 0 <= i < |s| ==> !IsUpper(s[i])
  }

  function LowerAll(xs: seq<string>): (r: seq<string>)
  {
    seq(|xs|, i requires 0 <= i < |xs| => Lower(xs[i]))
  }

  lemma LowerAllAppend(xs: seq<string>, ys: seq<string>)
    ensures LowerAll(xs + ys) == LowerAll(xs) + LowerAll(ys)
  {
    var l, r := LowerAll(xs + ys), LowerAll(xs) + LowerAll(ys);
    assert |l| == |r|;
    forall i | 0 <= i < |l| ensures l[i] == r[i] {
      if i < |xs| {
        assert (xs + ys)[i] == xs[i];
      } else {
        assert (xs + ys)[i] == ys[i - |xs|];
      }
    }
  }

  /** The typed text split on commas, each piece stripped and lower-cased,
      blank pieces dropped. Each
      ingredient is non-empty, has no surrounding whitespace, holds no comma and
      no upper-case letter, and there is at most one more ingredient than there
      are commas. */
  function ParseIngredients(input: string): (r: seq<string>)
    ensures |r| <= Count(input, ',') + 1
    ensures forall i :: 0 <= i < |r| ==>
      r[i] != [] && IsTrimmed(r[i]) && ',' !in r[i] && IsLowerCase(r[i])
  {
    var fields := TrimmedFields(input, ',');
    LowerTrimmedFields(fields);
    LowerAll(fields)
  }

  lemma LowerTrimmedFields(fields: seq<string>)
    requires forall i :: 0 <= i < |fields| ==> fields[i] != [] && IsTrimmed(fields[i]) && ',' !in fields[i]
    ensures forall i :: 0 <= i < |fields| ==>
      var x := Lower(fields[i]); x != [] && IsTrimmed(x) && ',' !in x && IsLowerCase(x)
  {
    forall i | 0 <= i < |fields|
      ensures var x := Lower(fields[i]); x != [] && IsTrimmed(x) && ',' !in x && IsLowerCase(x)
    {
      LowerKeeps(fields[i], ',');
    }
  }

  /** The ingredients keep the order in which they were typed: the list for
      `a,b` is the list for `a` followed by the list for `b`. */
  lemma IngredientsAppend(a: string, b: string)
    ensures ParseIngredients(a + [','] + b) == ParseIngredients(a) + ParseIngredients(b)
  {
    TrimmedFieldsAppend(a, b, ',');
    LowerAllAppend(TrimmedFields(a, ','), TrimmedFields(b, ','));
  }

  /** Text without a comma names one ingredient, its stripped and lower-cased
      form, unless it is blank, when it names none. */
  lemma IngredientsSingle(s: string)
    requires ',' !in s
    ensures ParseIngredients(s) == if AllSpace(s) then [] else [Lower(Strip(s))]
  {
    TrimmedFieldsSingle(s, ',');
  }
}
