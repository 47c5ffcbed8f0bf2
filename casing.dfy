/**
 * `fix_casing(names)`: the parser of the `--formats` tokens. It maps an
 * argument written in any casing to one canonical spelling taken from `names`,
 * a list that may hold several casings of one word (`hex` and `HEX`).
 *
 * Precedence: an exact spelling wins; otherwise a case-insensitive match wins
 * when it is unique; a case-insensitive tie is an error. Lower-casing is
 * modelled on the ASCII letters only.
 */
module Casing {
  import opened Wrappers

  datatype CasingError =
    | InvalidChoice(arg: string, names: seq<string>)          // no name matches, whatever the case
    | AmbiguousChoice(arg: string, candidates: seq<string>)   // several casings match, none exactly

  predicate IsUpper(c: char) {
    'A' <= c <= 'Z'
  }

  function LowerChar(c: char): char {
    if 'A' <= c <= 'Z' then (c as int + 32) as char else c
  }

  /** `str.lower()` on ASCII text. */
  function Lower(s: string): string {
    seq(|s|, i requires 0 <= i < |s| => LowerChar(s[i]))
  }

  /**
   * Lower-casing keeps the length, leaves no capital letter, and changes only
   * the capitals, each to the letter 32 code points above it.
   */
  lemma LowerIsLowerCase(s: string)
    ensures |Lower(s)| == |s|
    ensures forall i :: 0 <= i < |s| ==> !IsUpper(Lower(s)[i])
    ensures forall i :: 0 <= i < |s| ==>
              if IsUpper(s[i]) then Lower(s)[i] as int == s[i] as int + 32 else Lower(s)[i] == s[i]
  {
  }

  /** `tuple(name.lower() for name in names)` */
  function LowerAll(names: seq<string>): (r: seq<string>)
    ensures |r| == |names| && forall i :: 0 <= i < |names| ==> r[i] == Lower(names[i])
  {
    if names == [] then [] else [Lower(names[0])] + LowerAll(names[1..])
  }

  /** `s.count(x)`: the number of occurrences of `x` in `s`. */
  function Count<T(==)>(s: seq<T>, x: T): (n: nat)
    ensures n > 0 <==> x in s
    ensures n <= |s|
  {
    if s == [] then 0 else (if s[0] == x then 1 else 0) + Count(s[1..], x)
  }

  /** `s.index(x)`: the position of the first occurrence of `x`. */
  function IndexOf<T(==)>(s: seq<T>, x: T): (i: nat)
    requires x in s
    ensures i < |s| && s[i] == x
    ensures forall j :: 0 <= j < i ==> s[j] != x
  {
    if s[0] == x then 0 else 1 + IndexOf(s[1..], x)
  }

  /**
   * The error's candidate list: the names whose lower-case form is `key` and is
   * among the duplicated lower-case forms, in the order of `names`.
   */
  function AmbiguityCandidates(names: seq<string>, duplicates: set<string>, key: string): (r: seq<string>)
    ensures |r| <= |names|
    ensures forall n :: n in r <==> n in names && Lower(n) == key && key in duplicates
  {
    if names == [] then []
    else
      (if Lower(names[0]) in duplicates && Lower(names[0]) == key then [names[0]] else [])
      + AmbiguityCandidates(names[1..], duplicates, key)
  }

  /** `fix_casing(names)(arg)`, step by step as the parser computes it. */
  function Cased(names: seq<string>, arg: string): (r: Result<string, CasingError>)
    ensures r.Ok? ==> r.value in names && Lower(r.value) == Lower(arg)
    ensures arg in names ==> r == Ok(arg)
  {
    var lowNames := LowerAll(names);
    if Lower(arg) !in lowNames then Err(InvalidChoice(arg, names))
    else
      var duplicates := set name | name in lowNames && Count(lowNames, name) > 1;
      if arg in names then Ok(names[IndexOf(names, arg)])
      else if Lower(arg) !in duplicates then Ok(names[IndexOf(lowNames, Lower(arg))])
      else Err(AmbiguousChoice(arg, AmbiguityCandidates(names, duplicates, Lower(arg))))
  }

  // ---------------------------------------------------------------------------
  // The reference definition: the names that equal the argument ignoring case.
  // ---------------------------------------------------------------------------

  /** The names whose lower-case form is `key`, in the order of `names`. */
  function Variants(names: seq<string>, key: string): (v: seq<string>)
    ensures forall n :: n in v <==> n in names && Lower(n) == key
  {
    if names == [] then []
    else (if Lower(names[0]) == key then [names[0]] else []) + Variants(names[1..], key)
  }

  /** The count the parser takes of a lower-case form is the number of its variants. */
  lemma {:induction false} CountIsVariants(names: seq<string>, key: string)
    ensures Count(LowerAll(names), key) == |Variants(names, key)|
  {
    if names != [] {
      assert LowerAll(names)[1..] == LowerAll(names[1..]);
      CountIsVariants(names[1..], key);
    }
  }

  /** The name found through the first matching lower-case form is the first variant. */
  lemma {:induction false} FirstVariant(names: seq<string>, key: string)
    requires key in LowerAll(names)
    ensures |Variants(names, key)| > 0
    ensures names[IndexOf(LowerAll(names), key)] == Variants(names, key)[0]
  {
    assert LowerAll(names)[1..] == LowerAll(names[1..]);
    if Lower(names[0]) != key {
      assert key in LowerAll(names[1..]);
      FirstVariant(names[1..], key);
    }
  }

  /** When `key` is duplicated, the error lists exactly its variants. */
  lemma {:induction false} CandidatesAreVariants(names: seq<string>, duplicates: set<string>, key: string)
    requires key in duplicates
    ensures AmbiguityCandidates(names, duplicates, key) == Variants(names, key)
  {
    if names != [] {
      CandidatesAreVariants(names[1..], duplicates, key);
    }
  }

  /**
   * The three-tier precedence: an exact spelling is returned as it is; failing
   * that, no variant is an invalid choice, one variant is the answer, and two or
   * more are ambiguous, the error naming all of them.
   */
  lemma CasedPrecedence(names: seq<string>, arg: string)
    ensures var v := Variants(names, Lower(arg));
            Cased(names, arg) ==
              if arg in names then Ok(arg)
              else if |v| == 0 then Err(InvalidChoice(arg, names))
              else if |v| == 1 then Ok(v[0])
              else Err(AmbiguousChoice(arg, v))
  {
    var key := Lower(arg);
    var lowNames := LowerAll(names);
    var v := Variants(names, key);
    CountIsVariants(names, key);
    if arg !in names && key in lowNames {
      var duplicates := set name | name in lowNames && Count(lowNames, name) > 1;
      assert key in duplicates <==> |v| > 1;
      if |v| > 1 {
        CandidatesAreVariants(names, duplicates, key);
      } else {
        FirstVariant(names, key);
      }
    }
  }

  /** "Invalid choice" is raised exactly when no name equals the argument ignoring case. */
  lemma CasedInvalidExactly(names: seq<string>, arg: string)
    ensures Cased(names, arg) == Err(InvalidChoice(arg, names))
            <==> forall n :: n in names ==> Lower(n) != Lower(arg)
  {
    CasedPrecedence(names, arg);
    var v := Variants(names, Lower(arg));
    if |v| > 0 {
      assert v[0] in v;
    }
  }

  /**
   * "Ambiguous choice" is raised exactly when the argument is not itself a name
   * and two or more names equal it ignoring case.
   */
  lemma CasedAmbiguousExactly(names: seq<string>, arg: string)
    ensures Cased(names, arg).Err? && Cased(names, arg).error.AmbiguousChoice?
            <==> arg !in names && Count(LowerAll(names), Lower(arg)) >= 2
  {
    CasedPrecedence(names, arg);
    CountIsVariants(names, Lower(arg));
  }

  /** Feeding a result back in returns it unchanged. */
  lemma CasedIdempotent(names: seq<string>, arg: string)
    requires Cased(names, arg).Ok?
    ensures Cased(names, Cased(names, arg).value) == Cased(names, arg)
  {
  }

  // Examples. Some of them receive their strings as parameters fixed by a
  // `requires`: written as literals inside the formula, the strings would make
  // the verifier evaluate `Lower` and `LowerAll` on every literal it meets,
  // which costs more than the proof itself.

  /** Documentation example: a unique case-insensitive match, `('One', 'Two', 'Three')`. */
  lemma CasedDocExampleUnique()
    ensures Cased(["One", "Two", "Three"], "tHreE") == Ok("Three")
  {
    CasedPrecedence(["One", "Two", "Three"], "tHreE");
  }

  /** Documentation example: the unique variant of `BbB` among `('aaa', 'Aaa', 'bbb')`. */
  lemma CasedDocExampleCaseVariant(names: seq<string>, arg: string)
    requires names == ["aaa", "Aaa", "bbb"] && arg == "BbB"
    ensures Cased(names, arg) == Ok("bbb")
  {
    assert Lower(arg) == "bbb";
    assert Lower(names[0]) == "aaa" && Lower(names[1]) == "aaa" && Lower(names[2]) == "bbb";
    assert Variants(names[2..], "bbb") == ["bbb"];
    assert Variants(names, "bbb") == ["bbb"] by {
      assert names[1..][1..] == names[2..];
    }
    assert arg !in names;
    CasedPrecedence(names, arg);
  }

  /** Documentation example: an exact spelling wins over its case-variant. */
  lemma CasedDocExampleExact()
    ensures Cased(["aaa", "Aaa", "bbb"], "aaa") == Ok("aaa")
  {
  }

  /** Documentation example: `aAa` matches `aaa` and `Aaa` ignoring case, and neither exactly. */
  lemma CasedDocExampleAmbiguous(names: seq<string>, arg: string)
    requires names == ["aaa", "Aaa", "bbb"] && arg == "aAa"
    ensures Cased(names, arg) == Err(AmbiguousChoice(arg, ["aaa", "Aaa"]))
  {
    assert Lower(arg) == "aaa";
    assert Lower(names[0]) == "aaa" && Lower(names[1]) == "aaa" && Lower(names[2]) == "bbb";
    assert Variants(names[2..], "aaa") == [];
    assert Variants(names, "aaa") == ["aaa", "Aaa"] by {
      assert names[1..][1..] == names[2..];
    }
    assert arg !in names;
    CasedPrecedence(names, arg);
  }

  /**
   * A list that holds one spelling twice makes that word ambiguous in every
   * other casing, although both candidates are the same spelling.
   */
  lemma CasedRepeatedName(names: seq<string>, arg: string)
    requires names == ["aaa", "aaa"] && arg == "AAA"
    ensures Cased(names, arg) == Err(AmbiguousChoice(arg, ["aaa", "aaa"]))
  {
    assert Lower(arg) == "aaa" && Lower(names[0]) == "aaa";
    assert Variants(names[1..][1..], "aaa") == [];
    assert Variants(names, "aaa") == ["aaa", "aaa"];
    assert arg !in names;
    CasedPrecedence(names, arg);
  }
}
