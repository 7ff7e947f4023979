/**
 The substitution step of lab_1/part2/main.py: 34 successive
 `text = text.replace(source, target)` passes, each replacing one character
 by one character, that turn the cipher alphabet back into Russian.
 */
module Substitution {

  /** One replace pass: every occurrence of the first character becomes the second. */
  type Pass = (char, char)

  /** The passes of main, in program order. */
  const Passes: seq<Pass> := [
    ('Z', ' '),
    ('E', '\U{0418}'),  // И
    ('9', '\U{041E}'),  // О
    ('n', '\U{0422}'),  // Т
    ('h', '\U{041B}'),  // Л
    ('I', '\U{0415}'),  // Е
    ('F', '\U{0421}'),  // С
    ('x', '\U{042B}'),  // Ы
    ('V', '\U{041C}'),  // М
    ('A', '\U{041D}'),  // Н
    ('B', '\U{0413}'),  // Г
    ('W', '\U{0423}'),  // У
    ('!', '\U{0420}'),  // Р
    ('=', '\U{0414}'),  // Д
    ('$', '\U{042E}'),  // Ю
    ('>', '\U{042D}'),  // Э
    ('C', '\U{0410}'),  // А
    ('P', '\U{0412}'),  // В
    ('U', '\U{041F}'),  // П
    ('S', '\U{042F}'),  // Я
    ('t', '\U{0427}'),  // Ч
    ('-', '\U{042C}'),  // Ь
    ('O', '\U{0417}'),  // З
    ('M', '\U{0411}'),  // Б
    ('8', '\U{0429}'),  // Щ
    ('G', '\U{0425}'),  // Х
    ('N', '\U{0422}'),  // Т
    ('J', '\U{0416}'),  // Ж
    ('L', '\U{0419}'),  // Й
    ('R', '\U{0426}'),  // Ц
    ('d', '\U{0428}'),  // Ш
    ('3', '\U{0424}'),  // Ф
    ('Q', '\U{0401}'),  // Ё
    ('Y', '\U{042A}')   // Ъ
  ]

  /** str.replace with a one-character pattern and a one-character replacement. */
  function Replace(s: string, source: char, target: char): (r: string)
    ensures |r| == |s|
    ensures forall i | 0 <= i < |s| :: r[i] == if s[i] == source then target else s[i]
  {
    seq(|s|, i requires 0 <= i < |s| => if s[i] == source then target else s[i])
  }

  /** The passes applied one after another, first pass first (a left fold). */
  function ReplaceChain(s: string, passes: seq<Pass>): (r: string)
    ensures |r| == |s|
  {
    if passes == [] then s
    else
      var last := passes[|passes| - 1];
      Replace(ReplaceChain(s, passes[..|passes| - 1]), last.0, last.1)
  }

  predicate IsSource(passes: seq<Pass>, c: char)
  {
    exists i | 0 <= i < |passes| :: passes[i].0 == c
  }

  /** No pass writes a character that some pass replaces. */
  predicate NoTargetIsSource(passes: seq<Pass>)
  {
    forall i, j | 0 <= i < |passes| && 0 <= j < |passes| :: passes[i].1 != passes[j].0
  }

  /** The single-pass translation: the target of the first pass for c, or c itself. */
  function Lookup(passes: seq<Pass>, c: char): (r: char)
    ensures !IsSource(passes, c) ==> r == c
    ensures IsSource(passes, c) ==> exists i | 0 <= i < |passes| :: passes[i].0 == c && r == passes[i].1
  {
    if passes == [] then c
    else if passes[0].0 == c then passes[0].1
    else
      var r := Lookup(passes[1..], c);
      assert IsSource(passes[1..], c) ==> IsSource(passes, c) by {
        if IsSource(passes[1..], c) {
          var i :| 0 <= i < |passes[1..]| && passes[1..][i].0 == c;
          assert passes[i + 1].0 == c;
        }
      }
      assert IsSource(passes, c) ==> IsSource(passes[1..], c) by {
        if IsSource(passes, c) {
          var i :| 0 <= i < |passes| && passes[i].0 == c;
          assert passes[1..][i - 1].0 == c;
        }
      }
      assert IsSource(passes[1..], c) ==> exists i | 0 <= i < |passes| :: passes[i].0 == c && r == passes[i].1 by {
        if IsSource(passes[1..], c) {
          var i :| 0 <= i < |passes[1..]| && passes[1..][i].0 == c && r == passes[1..][i].1;
          assert passes[i + 1].0 == c && r == passes[i + 1].1;
        }
      }
      r
  }

  function Translate(s: string, passes: seq<Pass>): (r: string)
    ensures |r| == |s|
    ensures forall i | 0 <= i < |s| :: r[i] == Lookup(passes, s[i])
  {
    seq(|s|, i requires 0 <= i < |s| => Lookup(passes, s[i]))
  }

  /** Looking a character up in a list extended by one pass. */
  lemma {:induction false} LookupAppend(passes: seq<Pass>, p: Pass, c: char)
    ensures Lookup(passes + [p], c) ==
      if IsSource(passes, c) then Lookup(passes, c) else if p.0 == c then p.1 else c
  {
    if passes == [] {
      assert [p][1..] == [];
    } else {
      assert (passes + [p])[1..] == passes[1..] + [p];
      LookupAppend(passes[1..], p, c);
      if passes[0].0 != c {
        assert IsSource(passes, c) <==> IsSource(passes[1..], c) by {
          if IsSource(passes, c) {
            var i :| 0 <= i < |passes| && passes[i].0 == c;
            assert passes[1..][i - 1].0 == c;
          }
          if IsSource(passes[1..], c) {
            var i :| 0 <= i < |passes[1..]| && passes[1..][i].0 == c;
            assert passes[i + 1].0 == c;
          }
        }
      } else {
        assert passes[0].0 == c;
      }
    }
  }

  /** When no target is a source, the chain of passes equals one lookup per character. */
  lemma {:induction false} ChainIsLookup(s: string, passes: seq<Pass>)
    requires NoTargetIsSource(passes)
    ensures ReplaceChain(s, passes) == Translate(s, passes)
  {
    if passes == [] {
      assert Translate(s, passes) == s;
    } else {
      var init, last := passes[..|passes| - 1], passes[|passes| - 1];
      assert passes == init + [last];
      ChainIsLookup(s, init);
      forall i | 0 <= i < |s| ensures ReplaceChain(s, passes)[i] == Lookup(passes, s[i]) {
        LookupAppend(init, last, s[i]);
        if IsSource(init, s[i]) {
          var k :| 0 <= k < |init| && init[k].0 == s[i] && Lookup(init, s[i]) == init[k].1;
          assert passes[k].1 != passes[|passes| - 1].0;
        }
      }
    }
  }

  /** The translated text holds no source character any more. */
  lemma TranslateRemovesSources(s: string, passes: seq<Pass>)
    requires NoTargetIsSource(passes)
    ensures forall i | 0 <= i < |s| :: !IsSource(passes, Translate(s, passes)[i])
  {
    forall i | 0 <= i < |s| ensures !IsSource(passes, Translate(s, passes)[i]) {
      if IsSource(passes, s[i]) {
        var k :| 0 <= k < |passes| && passes[k].0 == s[i] && Lookup(passes, s[i]) == passes[k].1;
      }
    }
  }

  /** Running the chain a second time changes nothing. */
  lemma ChainIdempotent(s: string, passes: seq<Pass>)
    requires NoTargetIsSource(passes)
    ensures ReplaceChain(ReplaceChain(s, passes), passes) == ReplaceChain(s, passes)
  {
    var t := ReplaceChain(s, passes);
    ChainIsLookup(s, passes);
    ChainIsLookup(t, passes);
    TranslateRemovesSources(s, passes);
  }

  /** The passes of main: sources are ASCII, targets Russian capitals or the
      space, so no target is a source. */
  lemma PassesAreIndependent()
    ensures NoTargetIsSource(Passes)
  {
    assert forall i | 0 <= i < |Passes| :: '!' <= Passes[i].0 <= 'z';
    assert forall i | 0 <= i < |Passes| :: Passes[i].1 == ' ' || '\U{0400}' <= Passes[i].1;
  }

  /** What the chain of main promises: same length, characters that no pass
      names are kept, no source character is left, and a second run is a no-op. */
  lemma PassesChainFacts(s: string)
    ensures |ReplaceChain(s, Passes)| == |s|
    ensures forall i | 0 <= i < |s| :: !IsSource(Passes, s[i]) ==> ReplaceChain(s, Passes)[i] == s[i]
    ensures forall i | 0 <= i < |s| :: !IsSource(Passes, ReplaceChain(s, Passes)[i])
    ensures ReplaceChain(ReplaceChain(s, Passes), Passes) == ReplaceChain(s, Passes)
  {
    PassesAreIndependent();
    ChainIsLookup(s, Passes);
    TranslateRemovesSources(s, Passes);
    ChainIdempotent(s, Passes);
  }

  /** The replacement part of main: the passes applied in program order. */
  method Decode(text: string) returns (r: string)
    ensures r == ReplaceChain(text, Passes)
    ensures r == Translate(text, Passes)
  {
    r := text;
    for i := 0 to |Passes|
      invariant r == ReplaceChain(text, Passes[..i])
    {
      assert Passes[..i + 1][..i] == Passes[..i];
      r := Replace(r, Passes[i].0, Passes[i].1);
    }
    assert Passes[..|Passes|] == Passes;
    PassesAreIndependent();
    ChainIsLookup(text, Passes);
  }
}
