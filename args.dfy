/** `to_bool`: the command-line parser's reading of `--extras`. */
module Args {
  import opened Results

  /** `str.lower` on one character, for the letters that matter: only the ASCII capitals and
      the Kelvin sign lower to ASCII letters. */
  function LowerChar(ch: char): (l: char)
    ensures 'A' <= ch <= 'Z' ==> l as int == ch as int + 32
    ensures ch == 'K' ==> l == 'k'
    ensures !('A' <= ch <= 'Z') && ch != 'K' ==> l == ch
  {
    if 'A' <= ch <= 'Z' then (ch as int + 32) as char
    else if ch == 'K' then 'k'
    else ch
  }

  function Lower(s: string): (l: string)
    ensures |l| == |s|
    ensures forall i :: 0 <= i < |s| ==> l[i] == LowerChar(s[i])
  {
    if s == [] then [] else [LowerChar(s[0])] + Lower(s[1..])
  }

  const TRUE_WORDS: seq<string> := ["yes", "true", "t", "y", "1"]
  const FALSE_WORDS: seq<string> := ["no", "false", "f", "n", "0"]

  /** True words are checked first, then false words; anything else is rejected. */
  function ToBool(v: string): (r: Result<bool>)
    ensures r == Ok(true) <==> Lower(v) in TRUE_WORDS
    ensures r == Ok(false) <==> Lower(v) in FALSE_WORDS
    ensures r.Err? <==> Lower(v) !in TRUE_WORDS && Lower(v) !in FALSE_WORDS
    ensures r.Err? ==> r.error == NotABoolean
  {
    WordsDisjoint();
    if Lower(v) in TRUE_WORDS then Ok(true)
    else if Lower(v) in FALSE_WORDS then Ok(false)
    else Err(NotABoolean)
  }

  /** No word is both true and false. */
  lemma WordsDisjoint()
    ensures forall w :: w in TRUE_WORDS ==> w !in FALSE_WORDS
  {
    forall w | w in TRUE_WORDS ensures w !in FALSE_WORDS {
      assert w == "yes" || w == "true" || w == "t" || w == "y" || w == "1";
    }
  }

  /** Checking the false words first gives the same answers. */
  function ToBoolFalseFirst(v: string): Result<bool> {
    if Lower(v) in FALSE_WORDS then Ok(false)
    else if Lower(v) in TRUE_WORDS then Ok(true)
    else Err(NotABoolean)
  }

  lemma CheckOrderIrrelevant(v: string)
    ensures ToBool(v) == ToBoolFalseFirst(v)
  {
    WordsDisjoint();
  }

  lemma {:induction false} LowerIdempotent(s: string)
    ensures Lower(Lower(s)) == Lower(s)
  {
    if s != [] {
      LowerIdempotent(s[1..]);
      assert Lower(s)[1..] == Lower(s[1..]);
    }
  }

  /** Lower-casing the argument first changes nothing. */
  lemma ToBoolLower(v: string)
    ensures ToBool(Lower(v)) == ToBool(v)
  {
    LowerIdempotent(v);
  }

  /** Every spelling of a word in any mix of cases is read the same, for instance `YES`,
      `Yes` and `yEs`. */
  lemma ToBoolIgnoresCase(a: string, b: string)
    requires |a| == |b|
    requires forall i :: 0 <= i < |a| ==> LowerChar(a[i]) == LowerChar(b[i])
    ensures ToBool(a) == ToBool(b)
  {
    assert Lower(a) == Lower(b);
  }

  /** An answer in capitals is read as its lower-case word. */
  lemma ToBoolCapitals()
    ensures ToBool("YES") == Ok(true)
    ensures ToBool("No") == Ok(false)
  {
    assert Lower("YES") == "yes";
    assert Lower("No") == "no";
  }

  /** A word outside both lists is rejected. */
  lemma ToBoolRejects()
    ensures ToBool("maybe") == Err(NotABoolean)
  {
    assert Lower("maybe") == "maybe";
  }
}
