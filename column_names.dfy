/** The column-name steps of `transform_csv`: two exact renames, then three ordered rewrites. */
module ColumnNames {
  import opened Wrappers
  import opened Text

  /** A column name: text, or `None` for a NaN name (a missing cell promoted to the header). */
  type Label = Option<string>

  /** `df.rename(columns={'Cost Growth': 'Cost Digital', 'Cost Marketing ': 'Cost offline '})`:
      exact matches only, trailing space included; every other name is kept. */
  function Rename(name: Label): (r: Label)
    ensures r != name <==> name == Some("Cost Growth") || name == Some("Cost Marketing ")
    ensures name == Some("Cost Growth") ==> r == Some("Cost Digital")
    ensures name == Some("Cost Marketing ") ==> r == Some("Cost offline ")
  {
    if name == Some("Cost Growth") then Some("Cost Digital")
    else if name == Some("Cost Marketing ") then Some("Cost offline ")
    else name
  }

  /** One string rewrite of the `.str` accessor. */
  datatype Rewrite =
    | LowerCase                          // .str.lower()
    | ReplaceChar(find: char, put: char) // .str.replace(find, put)
    | DeleteChars(chars: set<char>)      // .str.replace('[...]', '', regex=True)

  /** `s` without the characters of `chars`. */
  function Delete(s: string, chars: set<char>): (r: string)
    ensures forall c :: c in r <==> c in s && c !in chars
  {
    if s == [] then [] else (if s[0] in chars then [] else [s[0]]) + Delete(s[1..], chars)
  }

  function Apply(rule: Rewrite, s: string): string {
    match rule
    case LowerCase => Lower(s)
    case ReplaceChar(find, put) => seq(|s|, i requires 0 <= i < |s| => if s[i] == find then put else s[i])
    case DeleteChars(chars) => Delete(s, chars)
  }

  /** The rewrites applied in order, each to the result of the previous one. */
  function ApplyAll(rules: seq<Rewrite>, s: string): string {
    if rules == [] then s else ApplyAll(rules[1..], Apply(rules[0], s))
  }

  /** The characters of the character class `[+\-./]`. */
  const Stripped: set<char> := {'+', '-', '.', '/'}

  /** Lower-case, then spaces to underscores, then strip `+ - . /`. */
  const CleanRules: seq<Rewrite> := [LowerCase, ReplaceChar(' ', '_'), DeleteChars(Stripped)]

  /** A name none of the three rewrites changes. */
  predicate IsClean(s: string) {
    forall i :: 0 <= i < |s| ==> !IsUpper(s[i]) && s[i] != ' ' && s[i] !in Stripped
  }

  /** The cleaning of a name; a NaN name stays NaN. */
  function CleanLabel(name: Label): Label {
    match name
    case None => None
    case Some(s) => Some(ApplyAll(CleanRules, s))
  }

  /** The three rules, unfolded. */
  lemma CleanSteps(s: string)
    ensures ApplyAll(CleanRules, s) == Delete(Apply(ReplaceChar(' ', '_'), Lower(s)), Stripped)
  {
    var s1 := Apply(LowerCase, s);
    var s2 := Apply(ReplaceChar(' ', '_'), s1);
    var s3 := Apply(DeleteChars(Stripped), s2);
    assert CleanRules[1..][1..][1..] == [];
    assert ApplyAll(CleanRules[1..][1..], s2) == ApplyAll(CleanRules[1..][1..][1..], s3);
    assert ApplyAll(CleanRules[1..], s1) == ApplyAll(CleanRules[1..][1..], s2);
  }

  /** A cleaned name has no upper-case letter, no space and none of `+ - . /`. */
  lemma CleanYieldsClean(s: string)
    ensures IsClean(ApplyAll(CleanRules, s))
  {
    CleanSteps(s);
    var s2 := Apply(ReplaceChar(' ', '_'), Lower(s));
    var r := Delete(s2, Stripped);
    assert forall c :: c in s2 ==> !IsUpper(c) && c != ' ';
    forall i | 0 <= i < |r| ensures !IsUpper(r[i]) && r[i] != ' ' && r[i] !in Stripped {
      assert r[i] in r;
    }
  }

  /** Deleting characters a string does not hold leaves it unchanged. */
  lemma {:induction false} DeleteAbsent(s: string, chars: set<char>)
    requires forall i :: 0 <= i < |s| ==> s[i] !in chars
    ensures Delete(s, chars) == s
  {
    if s != [] {
      DeleteAbsent(s[1..], chars);
      assert [s[0]] + s[1..] == s;
    }
  }

  /** Cleaning leaves a clean name unchanged. */
  lemma CleanFixesClean(s: string)
    requires IsClean(s)
    ensures ApplyAll(CleanRules, s) == s
  {
    CleanSteps(s);
    assert Lower(s) == s;
    assert Apply(ReplaceChar(' ', '_'), s) == s;
    DeleteAbsent(s, Stripped);
  }

  /** Normalising a name twice is the same as normalising it once. */
  lemma CleanIdempotent(name: Label)
    ensures CleanLabel(CleanLabel(name)) == CleanLabel(name)
  {
    if name.Some? {
      CleanYieldsClean(name.value);
      CleanFixesClean(ApplyAll(CleanRules, name.value));
    }
  }
}
