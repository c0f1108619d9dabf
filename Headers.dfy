/**
 * Header detection and editing: the default headers are the first upload's
 * keys, shown joined by ", "; the edited text is split on ",", each piece
 * stripped, and blank pieces dropped.
 */
module Headers {
  import opened Wrappers
  import opened Text
  import opened Json

  /** `list(first_json.keys())` for the first upload, or [] and a report when it does not parse. */
  function DetectHeaders(first: Upload): (seq<string>, seq<Report>)
  {
    match first.parsed
    case Some(d) => (d.keys, [])
    case None => ([], [ParseFailed(first.name)])
  }

  /** The text the header box starts with: `', '.join(default_headers)`. */
  function DefaultText(headers: seq<string>): string
  {
    Join(headers, ", ")
  }

  /** `[p.strip() for p in pieces if p.strip()]`. */
  function Tokens(pieces: seq<string>): seq<string>
  {
    if |pieces| == 0 then []
    else
      var t := Strip(pieces[|pieces| - 1]);
      Tokens(pieces[..|pieces| - 1]) + (if t != "" then [t] else [])
  }

  /** The custom headers made from the header box's text. */
  function ParseHeaders(text: string): seq<string>
  {
    Tokens(Split(text, ','))
  }

  /** Positions of the pieces that are not blank, ascending. */
  function KeptPieces(pieces: seq<string>): seq<nat>
  {
    if |pieces| == 0 then []
    else
      var n := |pieces| - 1;
      KeptPieces(pieces[..n]) + (if Strip(pieces[n]) != "" then [n] else [])
  }

  /** Token k is the stripped k-th non-blank piece: tokens keep the pieces'
      left-to-right order, and only blank pieces are dropped. */
  lemma {:induction false} TokensInOrder(pieces: seq<string>)
    ensures |KeptPieces(pieces)| == |Tokens(pieces)|
    ensures forall k :: 0 <= k < |Tokens(pieces)| ==>
              && KeptPieces(pieces)[k] < |pieces|
              && Tokens(pieces)[k] == Strip(pieces[KeptPieces(pieces)[k]])
              && Tokens(pieces)[k] != ""
    ensures forall k, l :: 0 <= k < l < |KeptPieces(pieces)| ==> KeptPieces(pieces)[k] < KeptPieces(pieces)[l]
    ensures forall i :: 0 <= i < |pieces| && Strip(pieces[i]) != "" ==> i in KeptPieces(pieces)
    decreases |pieces|
  {
    if |pieces| > 0 {
      var n := |pieces| - 1;
      var init := pieces[..n];
      TokensInOrder(init);
      var ks, ts := KeptPieces(init), Tokens(init);
      var t := Strip(pieces[n]);
      var ks', ts' := KeptPieces(pieces), Tokens(pieces);
      assert ks' == ks + (if t != "" then [n] else []);
      assert ts' == ts + (if t != "" then [t] else []);
      forall k | 0 <= k < |ts'|
        ensures ks'[k] < |pieces| && ts'[k] == Strip(pieces[ks'[k]]) && ts'[k] != ""
      {
        if k < |ts| {
          assert ks'[k] == ks[k] && ts'[k] == ts[k];
          assert init[ks[k]] == pieces[ks[k]];
        }
      }
      forall i | 0 <= i < |pieces| && Strip(pieces[i]) != "" ensures i in ks' {
        if i < n {
          assert init[i] == pieces[i];
          assert i in ks;
        }
      }
    }
  }

  /** A non-blank piece without commas strips to a clean header. */
  lemma StrippedPieceIsClean(p: string)
    requires ',' !in p && Strip(p) != ""
    ensures var h := Strip(p);
            && ',' !in h && Strip(h) == h && !IsSpace(h[0]) && !IsSpace(h[|h| - 1])
  {
    StripIsTrimmedSlice(p);
    StripIdempotent(p);
    var h := Strip(p);
    var i, j :| 0 <= i <= j <= |p| && h == p[i..j];
    forall m | 0 <= m < |h| ensures h[m] != ',' {
      assert h[m] == p[i + m];
    }
  }

  /** Every custom header is non-empty, has no comma, and has no leading or
      trailing whitespace. */
  lemma ParsedHeadersAreClean(text: string)
    ensures forall k :: 0 <= k < |ParseHeaders(text)| ==>
              var h := ParseHeaders(text)[k];
              && h != "" && ',' !in h && Strip(h) == h
              && !IsSpace(h[0]) && !IsSpace(h[|h| - 1])
  {
    var pieces := Split(text, ',');
    var hs := ParseHeaders(text);
    TokensInOrder(pieces);
    SplitPiecesFree(text, ',');
    forall k | 0 <= k < |hs|
      ensures && hs[k] != "" && ',' !in hs[k] && Strip(hs[k]) == hs[k]
              && !IsSpace(hs[k][0]) && !IsSpace(hs[k][|hs[k]| - 1])
    {
      StrippedPieceIsClean(pieces[KeptPieces(pieces)[k]]);
    }
  }

  /** Pieces whose stripped forms are the given non-empty headers, one each,
      give back exactly those headers. */
  lemma {:induction false} TokensOfStripped(pieces: seq<string>, headers: seq<string>)
    requires |pieces| == |headers|
    requires forall i :: 0 <= i < |pieces| ==> Strip(pieces[i]) == headers[i] && headers[i] != ""
    ensures Tokens(pieces) == headers
    decreases |pieces|
  {
    if |pieces| > 0 {
      var n := |pieces| - 1;
      TokensOfStripped(pieces[..n], headers[..n]);
      assert headers[..n] + [headers[n]] == headers;
    }
  }

  /** The default text re-split on "," alone: the first key, then each later
      key behind the blank that followed its comma. */
  function Spaced(keys: seq<string>): (r: seq<string>)
    ensures |r| == |keys|
  {
    seq(|keys|, i requires 0 <= i < |keys| => if i == 0 then keys[0] else " " + keys[i])
  }

  lemma {:induction false} JoinSpaced(keys: seq<string>)
    ensures Join(keys, ", ") == Join(Spaced(keys), ",")
    decreases |keys|
  {
    if |keys| >= 2 {
      JoinSpaced(keys[1..]);
      var rest := Spaced(keys[1..]);
      assert Spaced(keys)[1..] == [" " + rest[0]] + rest[1..];
      JoinConsHead(" ", rest, ",");
      assert Join(keys, ", ") == keys[0] + "," + (" " + Join(rest, ","));
    }
  }

  /** Leaving the header box unchanged gives back the detected headers, provided
      no key is empty, contains a comma, or has surrounding whitespace. */
  lemma DefaultTextRoundTrip(keys: seq<string>)
    requires forall i :: 0 <= i < |keys| ==> keys[i] != "" && ',' !in keys[i] && Strip(keys[i]) == keys[i]
    ensures ParseHeaders(DefaultText(keys)) == keys
  {
    if |keys| == 0 {
      assert Split("", ',') == [""];
      assert Tokens([""]) == [];
    } else {
      var pieces := Spaced(keys);
      JoinSpaced(keys);
      forall i | 0 <= i < |pieces| ensures ',' !in pieces[i] && Strip(pieces[i]) == keys[i] {
        if i > 0 {
          StripLeadingSpace(keys[i]);
          assert ',' !in " " + keys[i];
        }
      }
      SplitJoin(pieces, ',');
      TokensOfStripped(pieces, keys);
    }
  }

  /** The header box filled from the first upload, left unedited, yields
      that upload's keys as the custom headers, when the keys are clean. */
  lemma DetectedHeadersSurviveBox(first: Upload)
    requires first.parsed.Some?
    requires var keys := first.parsed.value.keys;
             forall i :: 0 <= i < |keys| ==> keys[i] != "" && ',' !in keys[i] && Strip(keys[i]) == keys[i]
    ensures DetectHeaders(first).1 == []
    ensures ParseHeaders(DefaultText(DetectHeaders(first).0)) == first.parsed.value.keys
  {
    DefaultTextRoundTrip(first.parsed.value.keys);
  }

  /** Without that proviso the round trip breaks: a key holding a comma comes
      back as two headers. */
  lemma CommaKeySplits()
    ensures ParseHeaders(DefaultText(["a,b"])) == ["a", "b"]
  {
    assert DefaultText(["a,b"]) == "a,b";
    assert Split("a,b", ',') == ["a", "b"] by {
      assert "a,b" == "a" + ([','] + "b");
      SplitAfterFree("a", "b", ',');
      SplitFree("b", ',');
    }
    assert !IsSpace('a') && !IsSpace('b');
    assert Strip("a") == "a" && Strip("b") == "b";
    TokensOfStripped(["a", "b"], ["a", "b"]);
  }
}
