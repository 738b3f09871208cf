/**
 * How `main` turns the configured keyword text into the keyword list handed
 * to the filter. The two run modes split the text differently.
 */
module KeywordParsing {
  import opened Text
  import opened KeywordFilter

  /** Every piece is blank. */
  predicate AllBlank(pieces: seq<string>)
  {
    forall j :: 0 <= j < |pieces| ==> IsBlank(pieces[j])
  }

  /** The text holds nothing but separators and whitespace. */
  predicate OnlySeparatorsAndSpace(s: string, sep: char)
  {
    forall i :: 0 <= i < |s| ==> s[i] == sep || IsSpace(s[i])
  }

  /** The stripped form of every piece whose stripped form is not empty, in
      order. */
  function StrippedNonBlank(pieces: seq<string>): (r: seq<string>)
    ensures |r| <= |pieces|
    ensures forall k :: 0 <= k < |r| ==> r[k] != [] && Strip(r[k]) == r[k]
  {
    if pieces == [] then []
    else
      var s := Strip(pieces[0]);
      StripIdempotent(pieces[0]);
      (if s != [] then [s] else []) + StrippedNonBlank(pieces[1..])
  }

  /** Nothing survives exactly when every piece is blank. */
  lemma {:induction false} StrippedNonBlankEmptyIffAllBlank(pieces: seq<string>)
    ensures StrippedNonBlank(pieces) == [] <==> AllBlank(pieces)
  {
    if pieces != [] {
      StripEmptyIffBlank(pieces[0]);
      StrippedNonBlankEmptyIffAllBlank(pieces[1..]);
      assert AllBlank(pieces) <==> IsBlank(pieces[0]) && AllBlank(pieces[1..]) by {
        assert forall j :: 1 <= j < |pieces| ==> pieces[1..][j - 1] == pieces[j];
      }
    }
  }

  /** Stripping adds no character: a character absent from every piece is
      absent from every kept entry. */
  lemma {:induction false} StrippedNonBlankKeepsOut(pieces: seq<string>, c: char)
    requires forall j :: 0 <= j < |pieces| ==> c !in pieces[j]
    ensures forall k :: 0 <= k < |StrippedNonBlank(pieces)| ==> c !in StrippedNonBlank(pieces)[k]
  {
    if pieces != [] {
      StripIsSlice(pieces[0]);
      StrippedNonBlankKeepsOut(pieces[1..], c);
    }
  }

  /** The positions of the pieces that are not blank, in increasing order:
      exactly the pieces the process-mode comprehension keeps. */
  function NonBlankPositions(pieces: seq<string>): (ps: seq<nat>)
    ensures forall k :: 0 <= k < |ps| ==> ps[k] < |pieces| && Strip(pieces[ps[k]]) != []
    ensures forall k, l :: 0 <= k < l < |ps| ==> ps[k] < ps[l]
    ensures forall j :: 0 <= j < |pieces| && Strip(pieces[j]) != [] ==> j in ps
    decreases |pieces|
  {
    if pieces == [] then []
    else
      var n := |pieces| - 1;
      assert forall j :: 0 <= j < n ==> pieces[..n][j] == pieces[j];
      NonBlankPositions(pieces[..n]) + (if Strip(pieces[n]) != [] then [n] else [])
  }

  /** The comprehension works piece by piece: on a concatenation it gives
      the concatenation of its results. */
  lemma {:induction false} StrippedNonBlankAppend(a: seq<string>, b: seq<string>)
    ensures StrippedNonBlank(a + b) == StrippedNonBlank(a) + StrippedNonBlank(b)
    decreases |a|
  {
    if a != [] {
      var s := Strip(a[0]);
      var head: seq<string> := if s != [] then [s] else [];
      assert (a + b)[0] == a[0] && (a + b)[1..] == a[1..] + b;
      assert StrippedNonBlank(a + b) == head + StrippedNonBlank(a[1..] + b);
      assert StrippedNonBlank(a) == head + StrippedNonBlank(a[1..]);
      StrippedNonBlankAppend(a[1..], b);
    } else {
      assert a + b == b;
    }
  }

  /** One more piece adds its stripped text when it is not blank. */
  lemma StrippedNonBlankSnoc(pieces: seq<string>)
    requires pieces != []
    ensures var n := |pieces| - 1;
      StrippedNonBlank(pieces)
      == StrippedNonBlank(pieces[..n]) + (if Strip(pieces[n]) != [] then [Strip(pieces[n])] else [])
  {
    var n := |pieces| - 1;
    var front, last := pieces[..n], pieces[n];
    var kept: seq<string> := if Strip(last) != [] then [Strip(last)] else [];
    assert StrippedNonBlank([last]) == kept by {
      assert [last][0] == last && [last][1..] == [];
    }
    assert pieces == front + [last];
    StrippedNonBlankAppend(front, [last]);
  }

  /** The comprehension's entries are the stripped pieces at the non-blank
      positions, in order: every kept entry comes from a piece, every
      non-blank piece is kept, and the order is that of the pieces. */
  lemma {:induction false} StrippedNonBlankAtPositions(pieces: seq<string>)
    ensures var r, ps := StrippedNonBlank(pieces), NonBlankPositions(pieces);
      |r| == |ps| && forall k :: 0 <= k < |r| ==> r[k] == Strip(pieces[ps[k]])
    decreases |pieces|
  {
    if pieces != [] {
      var n := |pieces| - 1;
      var front, last := pieces[..n], pieces[n];
      StrippedNonBlankAtPositions(front);
      var r0, ps0 := StrippedNonBlank(front), NonBlankPositions(front);
      assert |r0| == |ps0| && forall k :: 0 <= k < |r0| ==> r0[k] == Strip(front[ps0[k]]);
      StrippedNonBlankSnoc(pieces);
      var r, ps := StrippedNonBlank(pieces), NonBlankPositions(pieces);
      assert r == r0 + (if Strip(last) != [] then [Strip(last)] else []);
      assert ps == ps0 + (if Strip(last) != [] then [n] else []);
      forall k | 0 <= k < |r| ensures r[k] == Strip(pieces[ps[k]]) {
        if k < |r0| {
          assert front[ps0[k]] == pieces[ps0[k]];
        }
      }
    }
  }

  /** Process mode: the setting is split at commas, each piece is stripped
      and blank pieces are dropped; an empty setting gives the empty list. */
  function ProcessKeywords(setting: string): (r: seq<string>)
    ensures forall k :: 0 <= k < |r| ==> r[k] != [] && Strip(r[k]) == r[k] && ',' !in r[k]
  {
    if setting == [] then []
    else
      SplitSpec(setting, ',');
      StrippedNonBlankKeepsOut(Split(setting, ','), ',');
      StrippedNonBlank(Split(setting, ','))
  }

  /** Interactive mode: the answer is split at commas and nothing else. */
  function InteractiveKeywords(answer: string): (r: seq<string>)
    ensures |r| >= 1 && Join(r, ',') == answer
    ensures forall k :: 0 <= k < |r| ==> ',' !in r[k]
  {
    SplitSpec(answer, ',');
    Split(answer, ',')
  }

  /** Process mode keeps the stripped comma-separated pieces that are not
      blank, all of them and in order (an empty setting included, whose
      only piece is blank). */
  lemma ProcessKeywordsArePieces(setting: string)
    ensures var pieces := Split(setting, ',');
      var r, ps := ProcessKeywords(setting), NonBlankPositions(pieces);
      |r| == |ps| && forall k :: 0 <= k < |r| ==> r[k] == Strip(pieces[ps[k]])
  {
    var pieces := Split(setting, ',');
    StrippedNonBlankAtPositions(pieces);
    if setting == [] {
      assert pieces == [[]];
      assert NonBlankPositions(pieces) == [];
    }
  }

  /** The pieces of a split are all blank exactly when the text holds only
      separators and whitespace. */
  lemma SplitAllBlank(s: string, sep: char)
    ensures AllBlank(Split(s, sep)) <==> OnlySeparatorsAndSpace(s, sep)
  {
    if AllBlank(Split(s, sep)) {
      BlankPiecesOnlySpace(s, sep);
    }
    if OnlySeparatorsAndSpace(s, sep) {
      OnlySpaceBlankPieces(s, sep);
    }
  }

  /** If every piece is blank, the text holds only separators and whitespace. */
  lemma {:induction false} BlankPiecesOnlySpace(s: string, sep: char)
    requires AllBlank(Split(s, sep))
    ensures OnlySeparatorsAndSpace(s, sep)
    decreases |s|
  {
    if s != [] {
      SplitSpec(s[1..], sep);
      var rest := Split(s[1..], sep);
      var r := Split(s, sep);
      var first := if s[0] == sep then [] else [s[0]] + rest[0];
      var others := if s[0] == sep then rest else rest[1..];
      assert r == [first] + others;
      assert AllBlank(rest) by {
        forall j | 0 <= j < |rest| ensures IsBlank(rest[j]) {
          if s[0] == sep {
            assert rest[j] == r[j + 1];
          } else if j == 0 {
            assert IsBlank(first) by { assert r[0] == first; }
            forall i | 0 <= i < |rest[0]| ensures IsSpace(rest[0][i]) {
              assert rest[0][i] == first[i + 1];
            }
          } else {
            assert rest[j] == r[j];
          }
        }
      }
      BlankPiecesOnlySpace(s[1..], sep);
      forall i | 0 <= i < |s| ensures s[i] == sep || IsSpace(s[i]) {
        if i == 0 {
          if s[0] != sep {
            assert r[0] == first;
            assert IsSpace(first[0]);
          }
        } else {
          assert s[i] == s[1..][i - 1];
        }
      }
    }
  }

  /** If the text holds only separators and whitespace, every piece is blank. */
  lemma {:induction false} OnlySpaceBlankPieces(s: string, sep: char)
    requires OnlySeparatorsAndSpace(s, sep)
    ensures AllBlank(Split(s, sep))
    decreases |s|
  {
    if s != [] {
      SplitSpec(s[1..], sep);
      var rest := Split(s[1..], sep);
      var r := Split(s, sep);
      var first := if s[0] == sep then [] else [s[0]] + rest[0];
      var others := if s[0] == sep then rest else rest[1..];
      assert r == [first] + others;
      assert OnlySeparatorsAndSpace(s[1..], sep) by {
        forall i | 0 <= i < |s| - 1 ensures s[1..][i] == sep || IsSpace(s[1..][i]) {
          assert s[1..][i] == s[i + 1];
        }
      }
      OnlySpaceBlankPieces(s[1..], sep);
      forall j | 0 <= j < |r| ensures IsBlank(r[j]) {
        if j == 0 {
          assert forall i :: 1 <= i < |first| ==> first[i] == rest[0][i - 1];
        } else if s[0] == sep {
          assert r[j] == rest[j - 1];
        } else {
          assert r[j] == rest[j];
        }
      }
    }
  }

  /** In process mode the filter forwards everything exactly when the setting
      holds nothing but commas and whitespace (the empty setting included). */
  lemma ProcessModeForwardsAllIffBlank(setting: string)
    ensures ForwardsAll(ProcessKeywords(setting)) <==> OnlySeparatorsAndSpace(setting, ',')
  {
    var r := ProcessKeywords(setting);
    assert |r| > 0 ==> r[0] != [];
    assert ForwardsAll(r) <==> r == [];
    if setting != [] {
      SplitAllBlank(setting, ',');
      StrippedNonBlankEmptyIffAllBlank(Split(setting, ','));
    }
  }

  /** In process mode a keyword list that does not forward everything holds
      only non-blank keywords, so every entry can match. */
  lemma ProcessKeywordsNeverBlank(setting: string, k: int)
    requires 0 <= k < |ProcessKeywords(setting)|
    ensures !IsBlank(ProcessKeywords(setting)[k])
  {
    StripEmptyIffBlank(ProcessKeywords(setting)[k]);
  }

  /** Joining a list of non-empty, stripped keywords without commas and
      parsing it back in process mode gives the list again. */
  lemma {:induction false} ProcessKeywordsRoundTrip(keywords: seq<string>)
    requires forall k :: 0 <= k < |keywords| ==> keywords[k] != [] && Strip(keywords[k]) == keywords[k] && ',' !in keywords[k]
    ensures ProcessKeywords(Join(keywords, ',')) == keywords
  {
    if keywords != [] {
      SplitJoin(keywords, ',');
      StrippedNonBlankKeepsStripped(keywords);
      assert |Join(keywords, ',')| >= |keywords[0]| by {
        if |keywords| > 1 {
          assert Join(keywords, ',') == keywords[0] + [','] + Join(keywords[1..], ',');
        }
      }
    }
  }

  /** `StrippedNonBlank` leaves a list of non-empty, stripped entries as it is. */
  lemma {:induction false} StrippedNonBlankKeepsStripped(keywords: seq<string>)
    requires forall k :: 0 <= k < |keywords| ==> keywords[k] != [] && Strip(keywords[k]) == keywords[k]
    ensures StrippedNonBlank(keywords) == keywords
  {
    if keywords != [] {
      StrippedNonBlankKeepsStripped(keywords[1..]);
    }
  }

  /** In interactive mode only an empty answer forwards everything. */
  lemma InteractiveForwardsAllIffEmpty(answer: string)
    ensures ForwardsAll(InteractiveKeywords(answer)) <==> answer == []
  {
  }

  /** In interactive mode an answer made only of spaces and commas, for
      instance a single space, gives a list of blank keywords that is not
      the forward-everything list, so no message is forwarded at all. */
  lemma InteractiveBlankAnswerForwardsNothing(answer: string, text: string)
    requires answer != [] && OnlySeparatorsAndSpace(answer, ',')
    ensures Classify(text, InteractiveKeywords(answer)) == NoMatch
  {
    var keywords := InteractiveKeywords(answer);
    SplitAllBlank(answer, ',');
    BlankKeywordsMatchNothing(text, keywords);
  }
}
