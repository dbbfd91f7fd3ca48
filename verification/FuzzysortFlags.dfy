/** The bit flags by which fuzzysort passes over targets without matching them (src/utils/scripts/fuzzysort.js:72,
    174, 611-636). A number is the set of its bits that are one, so that `|` is union and `&` intersection. */
module FuzzysortFlags {
  import opened Alignments

  type Bits = set<nat>

  /** One bit for each letter, one for digits, one for other ASCII characters and one for the rest. */
  function Bit(c: int): (b: nat)
    ensures b < 32
  {
    if 97 <= c <= 122 then c - 97 else if 48 <= c <= 57 then 26 else if c <= 127 then 30 else 31
  }

  /** Characters share a bit only if they are equal, or both digits, both other ASCII or both beyond ASCII. */
  lemma BitsAreShared(c: int, d: int)
    requires c >= 0 && d >= 0
    ensures Bit(c) == Bit(d) <==>
      || c == d || (48 <= c <= 57 && 48 <= d <= 57) || (c > 127 && d > 127)
      || (c <= 127 && !(48 <= c <= 57) && !(97 <= c <= 122) && d <= 127 && !(48 <= d <= 57) && !(97 <= d <= 122))
  {
  }

  /** Spaces set none. */
  function Flags(codes: seq<int>): Bits {
    set c | c in codes && c != 32 :: Bit(c)
  }

  method PrepareFlags(codes: seq<int>) returns (bitflags: Bits, containsSpace: bool)
    ensures bitflags == Flags(codes) && (containsSpace <==> 32 in codes)
  {
    bitflags, containsSpace := {}, false;
    for i := 0 to |codes|
      invariant bitflags == Flags(codes[..i]) && (containsSpace <==> 32 in codes[..i])
    {
      assert codes[..i + 1] == codes[..i] + [codes[i]];
      if codes[i] == 32 {
        containsSpace := true;
        continue;
      }
      bitflags := bitflags + {Bit(codes[i])};
    }
    assert codes[..|codes|] == codes;
  }

  /** The test before a target is matched: `(search & target) === search`. */
  predicate Passes(search: Bits, target: Bits) {
    search * target == search
  }

  /** A target passes exactly if it has a character of the same kind for every character of the search but spaces. */
  lemma PassesIff(search: seq<int>, codes: seq<int>)
    ensures Passes(Flags(search), Flags(codes))
       <==> forall c :: c in search && c != 32 ==> exists d :: d in codes && d != 32 && Bit(d) == Bit(c)
  {
    if Passes(Flags(search), Flags(codes)) {
      forall c | c in search && c != 32 ensures exists d :: d in codes && d != 32 && Bit(d) == Bit(c) {
        assert Bit(c) in Flags(search) * Flags(codes);
      }
    }
  }

  /** So one of which the search is a subsequence is never passed over. */
  lemma SubsequencePasses(search: seq<int>, codes: seq<int>)
    requires Subsequence(search, codes)
    ensures Passes(Flags(search), Flags(codes))
  {
    forall c | c in search ensures c in codes {
      var a :| IsAlignment(a, codes, search);
      var i :| 0 <= i < |search| && search[i] == c;
      assert codes[a[i]] == c;
    }
    PassesIff(search, codes);
  }

  /** Nor one that holds every word of a search with spaces. */
  lemma WordsPass(search: seq<int>, words: seq<seq<int>>, codes: seq<int>)
    requires forall c :: c in search && c != 32 ==> exists w :: w in words && c in w
    requires forall w :: w in words ==> Subsequence(w, codes)
    ensures Passes(Flags(search), Flags(codes))
  {
    forall c | c in search && c != 32 ensures c in codes {
      var w :| w in words && c in w;
      var a :| IsAlignment(a, codes, w);
      var i :| 0 <= i < |w| && w[i] == c;
      assert codes[a[i]] == c;
    }
    PassesIff(search, codes);
  }

  /** White space other than spaces separates words too, but is looked for: the words "a", "b" and "c" of a search
      with a tab and a space between them are all in "abc", which is passed over all the same. */
  lemma TabIsLookedFor()
    ensures !Passes(Flags([97, 9, 98, 32, 99]), Flags([97, 98, 99]))
    ensures Subsequence([97], [97, 98, 99]) && Subsequence([98], [97, 98, 99]) && Subsequence([99], [97, 98, 99])
  {
    var search, codes := [97, 9, 98, 32, 99], [97, 98, 99];
    LacksBit(search, codes, 1);
    assert IsAlignment([0], codes, [97]) && IsAlignment([1], codes, [98]) && IsAlignment([2], codes, [99]);
  }

  lemma LacksBit(search: seq<int>, codes: seq<int>, i: nat)
    requires i < |search| && search[i] != 32 && forall k :: 0 <= k < |codes| ==> Bit(codes[k]) != Bit(search[i])
    ensures !Passes(Flags(search), Flags(codes))
  {
    hide Bit, Passes, Flags;
    PassesIff(search, codes);
    assert search[i] in search;
  }
}
