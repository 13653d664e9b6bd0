/**
 * The recipe page's search box: a recipe is shown when its lower-cased name
 * contains the lower-cased search text. Lower-casing is modelled over ASCII
 * letters only.
 */
module RecipesPage {
  import opened Schema

  function LowerChar(c: char): char {
    if 'A' <= c <= 'Z' then (c as int + 32) as char else c
  }

  function UpperChar(c: char): char {
    if 'a' <= c <= 'z' then (c as int - 32) as char else c
  }

  /** `toLowerCase`, character by character. */
  function ToLower(s: string): (r: string)
    ensures |r| == |s|
    ensures forall i :: 0 <= i < |s| ==> r[i] == LowerChar(s[i])
  {
    if |s| == 0 then "" else [LowerChar(s[0])] + ToLower(s[1..])
  }

  /** `toUpperCase`, character by character. */
  function ToUpper(s: string): (r: string)
    ensures |r| == |s|
    ensures forall i :: 0 <= i < |s| ==> r[i] == UpperChar(s[i])
  {
    if |s| == 0 then "" else [UpperChar(s[0])] + ToUpper(s[1..])
  }

  /** `needle` occurs in `hay` starting at position `i`. */
  ghost predicate OccursAt(hay: string, needle: string, i: int) {
    0 <= i && i + |needle| <= |hay| && hay[i..i + |needle|] == needle
  }

  /** Some position of `hay` starts an occurrence of `needle`. */
  ghost predicate Occurs(hay: string, needle: string) {
    exists i :: OccursAt(hay, needle, i)
  }

  /** `hay.includes(needle)`. */
  function Includes(hay: string, needle: string): (b: bool)
    ensures b <==> Occurs(hay, needle)
  {
    if needle <= hay then
      assert OccursAt(hay, needle, 0);
      true
    else if |hay| == 0 then
      assert forall i :: !OccursAt(hay, needle, i);
      false
    else
      var rest := Includes(hay[1..], needle);
      assert forall i :: OccursAt(hay[1..], needle, i) <==> OccursAt(hay, needle, i + 1);
      assert !OccursAt(hay, needle, 0);
      assert forall i :: OccursAt(hay, needle, i) ==> OccursAt(hay[1..], needle, i - 1);
      rest
  }

  /** The filter condition of the page: the search text, lower-cased, occurs in the lower-cased name. */
  predicate Matches(recipe: Recipe, search: string): (found: bool)
    ensures found <==> Occurs(ToLower(recipe.name), ToLower(search))
  {
    Includes(ToLower(recipe.name), ToLower(search))
  }

  /** `a` is `b` with some elements left out, the rest in order. */
  ghost predicate IsSubsequence<T>(a: seq<T>, b: seq<T>)
    decreases |b|
  {
    |a| == 0 ||
    (|b| > 0 && ((a[0] == b[0] && IsSubsequence(a[1..], b[1..])) || IsSubsequence(a, b[1..])))
  }

  /**
   * `filteredRecipes`: the recipes that match, in their listed order. A recipe
   * is kept exactly when it matches, and every occurrence of a matching recipe
   * is kept.
   */
  function FilterRecipes(recipes: seq<Recipe>, search: string): (r: seq<Recipe>)
    ensures forall x :: x in r <==> x in recipes && Matches(x, search)
    ensures forall x :: multiset(r)[x] == if Matches(x, search) then multiset(recipes)[x] else 0
    ensures IsSubsequence(r, recipes)
  {
    if |recipes| == 0 then []
    else
      var rest := FilterRecipes(recipes[1..], search);
      assert recipes == [recipes[0]] + recipes[1..];
      if Matches(recipes[0], search) then
        [recipes[0]] + rest
      else
        rest
  }

  /** Every text includes the empty text, so an empty search keeps every recipe. */
  lemma {:induction false} EmptySearchKeepsAll(recipes: seq<Recipe>)
    ensures FilterRecipes(recipes, "") == recipes
  {
    if |recipes| > 0 {
      EmptySearchKeepsAll(recipes[1..]);
      assert Matches(recipes[0], "") by {
        assert OccursAt(ToLower(recipes[0].name), "", 0);
      }
    }
  }

  lemma LowerUpperChar(c: char)
    ensures LowerChar(UpperChar(c)) == LowerChar(c)
  {
  }

  /** Upper-casing the search first makes no difference once both sides are lower-cased. */
  lemma LowerOfUpper(s: string)
    ensures ToLower(ToUpper(s)) == ToLower(s)
  {
    forall i | 0 <= i < |s|
      ensures ToLower(ToUpper(s))[i] == ToLower(s)[i]
    {
      LowerUpperChar(s[i]);
    }
  }

  /** Matching ignores case: searching for a text or its upper-cased form shows the same recipes. */
  lemma SearchIgnoresCase(recipes: seq<Recipe>, search: string)
    ensures FilterRecipes(recipes, ToUpper(search)) == FilterRecipes(recipes, search)
  {
    LowerOfUpper(search);
    SameLowerSameFilter(recipes, ToUpper(search), search);
  }

  lemma {:induction false} SameLowerSameFilter(recipes: seq<Recipe>, s1: string, s2: string)
    requires ToLower(s1) == ToLower(s2)
    ensures FilterRecipes(recipes, s1) == FilterRecipes(recipes, s2)
  {
    if |recipes| > 0 {
      SameLowerSameFilter(recipes[1..], s1, s2);
    }
  }
}
