/** `URLSearchParams` as the scripts use it: a list of name/value pairs in
    order, with `has`, `get`, `delete`, `set` and `append`, and its
    `application/x-www-form-urlencoded` text form. Percent-encoding itself is
    the browser's: it enters as a `Codec`, and only the properties the round
    trip needs are required of it. */
module QueryParams {
  import opened Text

  /** The pairs of a `URLSearchParams` object, in order; names may repeat. */
  type Query = seq<(string, string)>

  /** `params.has(name)`. */
  predicate Has(q: Query, name: string)
  {
    exists k :: 0 <= k < |q| && q[k].0 == name
  }

  /** `params.get(name)`: the value of the first pair with that name. */
  function Get(q: Query, name: string): (r: Option<string>)
    ensures r.Some? <==> Has(q, name)
    ensures r.Some? ==>
      exists k :: 0 <= k < |q| && q[k] == (name, r.value) && forall j :: 0 <= j < k ==> q[j].0 != name
  {
    if |q| == 0 then None
    else if q[0].0 == name then Some(q[0].1)
    else
      var r := Get(q[1..], name);
      assert Has(q[1..], name) ==> Has(q, name) by {
        if Has(q[1..], name) {
          var k :| 0 <= k < |q[1..]| && q[1..][k].0 == name;
          assert q[k + 1].0 == name;
        }
      }
      assert Has(q, name) ==> Has(q[1..], name) by {
        if Has(q, name) {
          var k :| 0 <= k < |q| && q[k].0 == name;
          assert q[1..][k - 1].0 == name;
        }
      }
      assert r.Some? ==> exists k :: 0 <= k < |q| && q[k] == (name, r.value) && forall j :: 0 <= j < k ==> q[j].0 != name by {
        if r.Some? {
          var k :| 0 <= k < |q[1..]| && q[1..][k] == (name, r.value) && forall j :: 0 <= j < k ==> q[1..][j].0 != name;
          assert q[k + 1] == (name, r.value);
          assert forall j :: 0 <= j < k + 1 ==> q[j].0 != name by {
            forall j | 0 <= j < k + 1 ensures q[j].0 != name {
              if j > 0 { assert q[j] == q[1..][j - 1]; }
            }
          }
        }
      }
      r
  }

  /** `get` on parameters followed by more parameters: the first part
      answers when it has the name, the rest otherwise. */
  lemma {:induction false} GetConcat(a: Query, b: Query, name: string)
    ensures Get(a + b, name) == if Has(a, name) then Get(a, name) else Get(b, name)
    decreases |a|
  {
    if |a| > 0 && a[0].0 != name {
      assert (a + b)[1..] == a[1..] + b;
      GetConcat(a[1..], b, name);
    } else if |a| == 0 {
      assert a + b == b;
    }
  }

  /** `params.delete(name)`: every pair with that name goes, the others stay
      in order. */
  function Delete(q: Query, name: string): (r: Query)
    ensures !Has(r, name)
    ensures |r| <= |q|
    ensures forall k :: 0 <= k < |r| ==> r[k] in q
  {
    if |q| == 0 then []
    else if q[0].0 == name then Delete(q[1..], name)
    else [q[0]] + Delete(q[1..], name)
  }

  /** `params.append(name, value)`. */
  function Append(q: Query, name: string, value: string): Query
  {
    q + [(name, value)]
  }

  /** `params.set(name, value)`: the first pair with that name takes the new
      value and the later ones are removed; without such a pair, the new one is
      appended. */
  function Set(q: Query, name: string, value: string): Query
  {
    if |q| == 0 then [(name, value)]
    else if q[0].0 == name then [(name, value)] + Delete(q[1..], name)
    else [q[0]] + Set(q[1..], name, value)
  }

  /** How many pairs carry `name`. */
  function Count(q: Query, name: string): nat
  {
    if |q| == 0 then 0
    else (if q[0].0 == name then 1 else 0) + Count(q[1..], name)
  }

  lemma {:induction false} DeleteCount(q: Query, name: string)
    ensures Count(Delete(q, name), name) == 0
    decreases |q|
  {
    if |q| > 0 {
      DeleteCount(q[1..], name);
      if q[0].0 != name {
        assert ([q[0]] + Delete(q[1..], name))[1..] == Delete(q[1..], name);
      }
    }
  }

  /** Deleting one name leaves a list without it and, of every other name,
      exactly the pairs there were, in the same order. */
  lemma {:induction false} DeleteKeepsOthers(q: Query, name: string, other: string)
    requires other != name
    ensures Delete(Delete(q, name), other) == Delete(Delete(q, other), name)
    ensures Get(Delete(q, name), other) == Get(q, other)
    decreases |q|
  {
    if |q| > 0 {
      DeleteKeepsOthers(q[1..], name, other);
      if q[0].0 == name {
        assert Delete(q, other) == [q[0]] + Delete(q[1..], other);
        assert Delete(q, other)[1..] == Delete(q[1..], other);
      } else if q[0].0 == other {
        assert Delete(q, name) == [q[0]] + Delete(q[1..], name);
        assert Delete(q, name)[1..] == Delete(q[1..], name);
      } else {
        assert Delete(q, name)[1..] == Delete(q[1..], name);
        assert Delete(q, other)[1..] == Delete(q[1..], other);
      }
    }
  }

  /** Deleting a name that is absent changes nothing. */
  lemma {:induction false} DeleteAbsent(q: Query, name: string)
    requires !Has(q, name)
    ensures Delete(q, name) == q
    decreases |q|
  {
    if |q| > 0 {
      assert q[0].0 != name;
      forall k | 0 <= k < |q[1..]| ensures q[1..][k].0 != name {
        assert q[1..][k] == q[k + 1];
      }
      DeleteAbsent(q[1..], name);
      assert [q[0]] + q[1..] == q;
    }
  }

  /** `set(name, value)` leaves exactly one pair called `name`, holding
      `value`, and keeps every other pair in its order. */
  lemma {:induction false} SetMeaning(q: Query, name: string, value: string)
    ensures Count(Set(q, name, value), name) == 1
    ensures Get(Set(q, name, value), name) == Some(value)
    ensures Delete(Set(q, name, value), name) == Delete(q, name)
    decreases |q|
  {
    var r := Set(q, name, value);
    if |q| == 0 {
      assert r[1..] == [];
    } else if q[0].0 == name {
      DeleteCount(q[1..], name);
      assert r[1..] == Delete(q[1..], name);
      DeleteTwice(q[1..], name);
    } else {
      SetMeaning(q[1..], name, value);
      assert r[1..] == Set(q[1..], name, value);
      assert Delete(r, name) == [q[0]] + Delete(Set(q[1..], name, value), name);
    }
  }

  lemma {:induction false} DeleteTwice(q: Query, name: string)
    ensures Delete(Delete(q, name), name) == Delete(q, name)
  {
    DeleteAbsent(Delete(q, name), name);
  }

  // ---------------------------------------------------------------------------
  // text form
  // ---------------------------------------------------------------------------

  /** The browser's percent-encoding of one name or value, and its decoding
      (which also turns `+` into a space). */
  datatype Codec = Codec(encode: string -> string, decode: string -> string)

  /** What the form encoding guarantees: decoding undoes encoding, and an
      encoded name or value contains no `&`, `=` or `#`. */
  ghost predicate Faithful(c: Codec)
  {
    forall s :: c.decode(c.encode(s)) == s && '&' !in c.encode(s) && '=' !in c.encode(s) && '#' !in c.encode(s)
  }

  function EncodePair(p: (string, string), c: Codec): string
  {
    c.encode(p.0) + "=" + c.encode(p.1)
  }

  function EncodePairs(q: Query, c: Codec): (pieces: seq<string>)
    ensures |pieces| == |q|
    ensures forall k :: 0 <= k < |q| ==> pieces[k] == EncodePair(q[k], c)
  {
    if |q| == 0 then [] else [EncodePair(q[0], c)] + EncodePairs(q[1..], c)
  }

  /** `params.toString()`: the encoded pairs joined with `&`. */
  function Serialize(q: Query, c: Codec): string
  {
    Join(EncodePairs(q, c), "&")
  }

  /** One `&`-separated piece read back as a pair: split at the first `=`;
      without one, the whole piece is the name and the value is empty. */
  function DecodePiece(piece: string, c: Codec): (string, string)
  {
    match IndexOf(piece, "=")
    case None => (c.decode(piece), "")
    case Some(i) => (c.decode(piece[..i]), c.decode(piece[i + 1..]))
  }

  function DecodePieces(pieces: seq<string>, c: Codec): Query
  {
    if |pieces| == 0 then []
    else if pieces[0] == "" then DecodePieces(pieces[1..], c)
    else [DecodePiece(pieces[0], c)] + DecodePieces(pieces[1..], c)
  }

  /** `new URLSearchParams(text)` for a query text without its leading `?`:
      empty pieces between `&`s are skipped. */
  function Parse(text: string, c: Codec): Query
  {
    DecodePieces(Split(text, '&'), c)
  }

  /** The serialised form is empty exactly when there are no pairs: every
      pair contributes at least its `=`. */
  lemma SerializeEmpty(q: Query, c: Codec)
    ensures Serialize(q, c) == "" <==> q == []
  {
    if |q| > 0 {
      var pieces := EncodePairs(q, c);
      assert '=' in pieces[0];
      if |q| == 1 {
        assert Serialize(q, c) == pieces[0];
      } else {
        assert Serialize(q, c) == pieces[0] + "&" + Join(pieces[1..], "&");
      }
    }
  }

  lemma DecodeEncodedPair(p: (string, string), c: Codec)
    requires Faithful(c)
    ensures EncodePair(p, c) != "" && DecodePiece(EncodePair(p, c), c) == p
  {
    var e := EncodePair(p, c);
    var n := c.encode(p.0);
    assert '=' !in n;
    assert e[|n|] == '=';
    assert OccursAt(e, "=", |n|);
    assert forall j :: 0 <= j < |n| ==> !OccursAt(e, "=", j) by {
      forall j | 0 <= j < |n| ensures !OccursAt(e, "=", j) {
        assert e[j] == n[j];
        assert e[j..j + 1][0] == e[j];
      }
    }
    assert e[..|n|] == n && e[|n| + 1..] == c.encode(p.1);
  }

  lemma {:induction false} DecodeEncodedPairs(q: Query, c: Codec)
    requires Faithful(c)
    ensures DecodePieces(EncodePairs(q, c), c) == q
    decreases |q|
  {
    if |q| > 0 {
      DecodeEncodedPair(q[0], c);
      DecodeEncodedPairs(q[1..], c);
      assert EncodePairs(q, c)[1..] == EncodePairs(q[1..], c);
      assert [q[0]] + q[1..] == q;
    }
  }

  /** Reading back what `toString()` wrote gives the same pairs, in the same
      order, repeated names included. */
  lemma ParseSerialize(q: Query, c: Codec)
    requires Faithful(c)
    ensures Parse(Serialize(q, c), c) == q
  {
    var pieces := EncodePairs(q, c);
    if |q| == 0 {
      assert Split("", '&') == [""];
      assert DecodePieces([""], c) == DecodePieces([], c);
    } else {
      forall k | 0 <= k < |pieces| ensures '&' !in pieces[k] {
        assert pieces[k] == c.encode(q[k].0) + "=" + c.encode(q[k].1);
        assert '&' !in c.encode(q[k].0) && '&' !in c.encode(q[k].1);
      }
      SplitJoin(pieces, '&');
      DecodeEncodedPairs(q, c);
    }
  }

  lemma {:induction false} DecodePiecesAppend(a: seq<string>, b: seq<string>, c: Codec)
    ensures DecodePieces(a + b, c) == DecodePieces(a, c) + DecodePieces(b, c)
    decreases |a|
  {
    if |a| > 0 {
      DecodePiecesAppend(a[1..], b, c);
      var ab := a + b;
      assert ab[0] == a[0] && ab[1..] == a[1..] + b;
      if a[0] == "" {
        assert DecodePieces(ab, c) == DecodePieces(ab[1..], c);
      } else {
        var d := DecodePiece(a[0], c);
        assert DecodePieces(ab, c) == [d] + DecodePieces(ab[1..], c);
        assert [d] + (DecodePieces(a[1..], c) + DecodePieces(b, c)) == ([d] + DecodePieces(a[1..], c)) + DecodePieces(b, c);
      }
    } else {
      assert a + b == b;
    }
  }

  /** Text joined with `&` is read as the pairs of each side, one after the
      other, whatever either side holds. */
  lemma ParseJoined(a: string, b: string, c: Codec)
    ensures Parse(a + "&" + b, c) == Parse(a, c) + Parse(b, c)
  {
    SplitAtSeparator(a, b, '&');
    DecodePiecesAppend(Split(a, '&'), Split(b, '&'), c);
  }
}
