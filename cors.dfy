/**
 * The list of origins allowed to call the API across origins: four local
 * development servers, then every further origin named in the comma-separated
 * configuration value, stripped, skipping empty pieces and repeats.
 */
module Cors {
  import opened Text

  /** The local development servers, always allowed, always first. */
  const LocalOrigins: seq<string> := [
    "http://localhost:5173",
    "http://127.0.0.1:5173",
    "http://localhost:3000",
    "http://127.0.0.1:3000"
  ]

  /** No origin is listed twice. */
  predicate Distinct(s: seq<string>) {
    forall i, j :: 0 <= i < j < |s| ==> s[i] != s[j]
  }

  /** Each piece of the configuration value, stripped. */
  function Stripped(pieces: seq<string>): (r: seq<string>)
    ensures |r| == |pieces|
    ensures forall k :: 0 <= k < |pieces| ==> r[k] == Strip(pieces[k])
  {
    if pieces == [] then [] else [Strip(pieces[0])] + Stripped(pieces[1..])
  }

  /**
   * `origins` followed by the stripped `pieces`, in order, that are not
   * empty and not already listed by the time they are reached. The
   * existing origins stay in front, and nothing is added when there are no
   * pieces.
   */
  function AddOrigins(origins: seq<string>, pieces: seq<string>): (r: seq<string>)
    ensures |origins| <= |r| && r[..|origins|] == origins
    ensures pieces == [] ==> r == origins
    decreases |pieces|
  {
    if pieces == [] then origins
    else
      var next := Merged(origins, pieces[0]);
      var r := AddOrigins(next, pieces[1..]);
      assert r[..|origins|] == r[..|next|][..|origins|];
      r
  }

  /**
   * What merging keeps and adds: the existing origins stay in front; nothing
   * is listed twice; each added origin is a non-empty, stripped piece; every
   * non-empty stripped piece ends up listed.
   */
  lemma {:induction false} AddOriginsShape(origins: seq<string>, pieces: seq<string>)
    requires Distinct(origins)
    ensures var r := AddOrigins(origins, pieces);
      && |origins| <= |r| && r[..|origins|] == origins
      && Distinct(r)
      && (forall i :: |origins| <= i < |r| ==> r[i] != [] && Strip(r[i]) == r[i] && r[i] in Stripped(pieces))
      && (forall k :: 0 <= k < |pieces| && Strip(pieces[k]) != [] ==> Strip(pieces[k]) in r)
    decreases |pieces|
  {
    if pieces != [] {
      var url := Strip(pieces[0]);
      var next := Merged(origins, pieces[0]);
      assert Distinct(next);
      AddOriginsShape(next, pieces[1..]);
      var r := AddOrigins(next, pieces[1..]);
      assert r[..|origins|] == r[..|next|][..|origins|];
      assert Stripped(pieces) == [url] + Stripped(pieces[1..]);
      forall i | |origins| <= i < |r|
        ensures r[i] != [] && Strip(r[i]) == r[i] && r[i] in Stripped(pieces)
      {
        if i < |next| {
          assert r[i] == r[..|next|][i] == url;
          StripIdempotent(pieces[0]);
        }
      }
      forall k | 0 <= k < |pieces| && Strip(pieces[k]) != [] ensures Strip(pieces[k]) in r {
        if k == 0 {
          if url in origins {
            var i :| 0 <= i < |origins| && origins[i] == url;
            assert r[..|next|][..|origins|][i] == url;
          } else {
            assert r[..|next|][|origins|] == url;
          }
        } else {
          assert pieces[1..][k - 1] == pieces[k];
        }
      }
    }
  }

  /**
   * `origins` with `piece`, stripped, appended exactly when that is not
   * empty and not yet listed; afterwards a non-empty stripped piece is
   * listed, and a list without repeats still has none.
   */
  function Merged(origins: seq<string>, piece: string): (r: seq<string>)
    ensures |r| == |origins| || (|r| == |origins| + 1 && r[|origins|] == Strip(piece))
    ensures r[..|origins|] == origins
    ensures |r| == |origins| + 1 <==> Strip(piece) != [] && Strip(piece) !in origins
    ensures Distinct(origins) ==> Distinct(r)
  {
    var url := Strip(piece);
    if url != [] && url !in origins then origins + [url] else origins
  }

  /**
   * Added origins keep the order in which they first occur among the
   * stripped pieces: whenever a later-added origin occurs at piece `k`, every
   * earlier-added origin already occurs among the pieces before `k`.
   */
  lemma {:induction false} AddOriginsOrder(origins: seq<string>, pieces: seq<string>)
    requires Distinct(origins)
    ensures var r := AddOrigins(origins, pieces);
      forall i, j, k :: |origins| <= i < j < |r| && 0 <= k < |pieces| && Strip(pieces[k]) == r[j]
        ==> r[i] in Stripped(pieces[..k])
    decreases |pieces|
  {
    if pieces != [] {
      var next := Merged(origins, pieces[0]);
      assert AddOrigins(origins, pieces) == AddOrigins(next, pieces[1..]);
      AddOriginsOrder(next, pieces[1..]);
      var r := AddOrigins(next, pieces[1..]);
      forall i, j, k | |origins| <= i < j < |r| && 0 <= k < |pieces| && Strip(pieces[k]) == r[j]
        ensures r[i] in Stripped(pieces[..k])
      {
        AddedAfterFirstPiece(origins, pieces, j);
        assert k != 0;
        StrippedPrefix(pieces, k);
        if i < |next| {
          AddOriginsShape(next, pieces[1..]);
          assert r[i] == r[..|next|][i] == Strip(pieces[0]);
        } else {
          assert pieces[1..][k - 1] == pieces[k];
        }
      }
    }
  }

  /**
   * An origin added after the first piece was merged differs from that
   * piece stripped.
   */
  lemma AddedAfterFirstPiece(origins: seq<string>, pieces: seq<string>, j: int)
    requires Distinct(origins) && pieces != [] && |origins| < j
    ensures j < |AddOrigins(origins, pieces)| ==> AddOrigins(origins, pieces)[j] != Strip(pieces[0])
  {
    var url := Strip(pieces[0]);
    var next := Merged(origins, pieces[0]);
    assert Distinct(next);
    AddOriginsShape(next, pieces[1..]);
    var r := AddOrigins(next, pieces[1..]);
    assert r[..|next|] == next;
    if url == [] {
    } else if url in origins {
      var m :| 0 <= m < |origins| && origins[m] == url;
      assert r[m] == url;
    } else {
      assert r[|origins|] == url;
    }
  }

  lemma StrippedPrefix(pieces: seq<string>, k: nat)
    requires 0 < k <= |pieces|
    ensures Stripped(pieces[..k]) == [Strip(pieces[0])] + Stripped(pieces[1..][..k - 1])
  {
    assert pieces[..k][1..] == pieces[1..][..k - 1];
  }

  /**
   * Build the allowed origins from the configuration value `frontendUrl`
   * (empty when unset): the local origins, then each comma-separated piece,
   * stripped, when it is non-empty and not yet listed.
   */
  method AllowedOrigins(frontendUrl: string) returns (origins: seq<string>)
    ensures origins == AddOrigins(LocalOrigins, Split(frontendUrl, ","))
    ensures |origins| >= |LocalOrigins| && origins[..|LocalOrigins|] == LocalOrigins
    ensures Distinct(origins)
    ensures forall i :: |LocalOrigins| <= i < |origins| ==>
              origins[i] != [] && Strip(origins[i]) == origins[i] && origins[i] in Stripped(Split(frontendUrl, ","))
    ensures forall piece :: piece in Split(frontendUrl, ",") && Strip(piece) != [] ==> Strip(piece) in origins
    ensures var pieces := Split(frontendUrl, ",");
      forall i, j, k :: |LocalOrigins| <= i < j < |origins| && 0 <= k < |pieces| && Strip(pieces[k]) == origins[j]
        ==> origins[i] in Stripped(pieces[..k])
  {
    var pieces := Split(frontendUrl, ",");
    if frontendUrl != [] {
      origins := AppendOrigins(LocalOrigins, pieces);
    } else {
      origins := LocalOrigins;
      assert pieces == [[]];
    }
    LocalOriginsDistinct();
    AddOriginsShape(LocalOrigins, pieces);
    AddOriginsOrder(LocalOrigins, pieces);
  }

  /**
   * The loop over the configuration pieces: each piece is stripped and
   * appended when it is not empty and not yet listed.
   */
  method AppendOrigins(initial: seq<string>, pieces: seq<string>) returns (origins: seq<string>)
    ensures origins == AddOrigins(initial, pieces)
  {
    origins := initial;
    var i := 0;
    while i < |pieces|
      invariant 0 <= i <= |pieces|
      invariant AddOrigins(initial, pieces) == AddOrigins(origins, pieces[i..])
    {
      var url := Strip(pieces[i]);
      AddOriginsStep(origins, pieces, i);
      if url != [] && url !in origins {
        origins := origins + [url];
      }
      i := i + 1;
    }
  }

  /** Merging from piece `i` on is merging piece `i`, then the rest. */
  lemma AddOriginsStep(origins: seq<string>, pieces: seq<string>, i: nat)
    requires i < |pieces|
    ensures AddOrigins(origins, pieces[i..]) == AddOrigins(Merged(origins, pieces[i]), pieces[i + 1..])
  {
    assert pieces[i..][1..] == pieces[i + 1..];
  }

  lemma LocalOriginsDistinct()
    ensures Distinct(LocalOrigins)
  {
    assert LocalOrigins[0][7] == 'l' && LocalOrigins[1][7] == '1';
    assert LocalOrigins[2][7] == 'l' && LocalOrigins[3][7] == '1';
    assert LocalOrigins[0][17] == '5' && LocalOrigins[2][17] == '3';
    assert LocalOrigins[1][17] == '5' && LocalOrigins[3][17] == '3';
  }
}
