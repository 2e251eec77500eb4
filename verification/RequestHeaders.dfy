/** What the header map holds after any list of header lines. */
module RequestHeaders {
  import opened Text
  import opened RequestParser

  predicate AllHeaders(lines: seq<string>) {
    forall i {:trigger IsHeader(lines[i])} :: 0 <= i < |lines| ==> IsHeader(lines[i])
  }

  function Fold(headers: map<string, string>, lines: seq<string>): map<string, string>
    requires AllHeaders(lines)
    decreases |lines|
  {
    if lines == [] then headers else Fold(AddHeader(headers, lines[0]), lines[1..])
  }

  /** The values given for `key`, in order of arrival. */
  function Values(lines: seq<string>, key: string): seq<string>
    requires AllHeaders(lines)
  {
    if lines == [] then []
    else (if Key(lines[0]) == key then [Value(lines[0])] else []) + Values(lines[1..], key)
  }

  function Stored(headers: map<string, string>, key: string): seq<string> {
    if key in headers then [headers[key]] else []
  }

  function Merged(key: string, values: seq<string>): string
    requires values != []
  {
    if key in UNIQUE_HEADERS then values[0] else Join(values, ", ")
  }

  /** A key is stored when a line names it: with its first value when it is one
      of the unique headers, else with all its values joined in order. */
  lemma {:induction false} FoldValue(headers: map<string, string>, lines: seq<string>, key: string)
    requires AllHeaders(lines)
    ensures var all := Stored(headers, key) + Values(lines, key);
            && (key in Fold(headers, lines) <==> all != [])
            && (all != [] ==> Fold(headers, lines)[key] == Merged(key, all))
    decreases |lines|
  {
    if lines == [] {
      assert Stored(headers, key) + [] == Stored(headers, key);
    } else {
      var next := AddHeader(headers, lines[0]);
      FoldValue(next, lines[1..], key);
      StoreOne(headers, lines[0], key, Values(lines[1..], key));
    }
  }

  lemma StoreOne(headers: map<string, string>, line: string, key: string, later: seq<string>)
    requires IsHeader(line)
    ensures var given := if Key(line) == key then [Value(line)] else [];
            var before, after := Stored(AddHeader(headers, line), key) + later, Stored(headers, key) + (given + later);
            && (before == [] <==> after == [])
            && (after != [] ==> Merged(key, before) == Merged(key, after))
  {
    var v := Value(line);
    if Key(line) == key {
      if key in headers {
        assert Stored(headers, key) + ([v] + later) == [headers[key], v] + later;
        JoinPair(headers[key], v, later);
      } else {
        assert Stored(headers, key) + ([v] + later) == [v] + later;
      }
    } else {
      assert [] + later == later;
    }
  }

  lemma JoinPair(a: string, b: string, later: seq<string>)
    ensures Join([a + ", " + b] + later, ", ") == Join([a, b] + later, ", ")
  {
    JoinCons(a + ", " + b, later, ", ");
    JoinCons(b, later, ", ");
    JoinCons(a, [b] + later, ", ");
    assert [a, b] + later == [a] + ([b] + later);
    if later != [] {
      assert a + ", " + b + ", " + Join(later, ", ") == a + ", " + (b + ", " + Join(later, ", "));
    }
  }

  lemma {:induction false} FoldConcat(headers: map<string, string>, a: seq<string>, b: seq<string>)
    requires AllHeaders(a) && AllHeaders(b)
    ensures AllHeaders(a + b) && Fold(headers, a + b) == Fold(Fold(headers, a), b)
    decreases |a|
  {
    if a == [] {
      assert a + b == b;
    } else {
      FoldConcat(AddHeader(headers, a[0]), a[1..], b);
      assert (a + b)[1..] == a[1..] + b;
    }
  }

  lemma {:induction false} AddHeadersIs(request: Request, lines: seq<string>)
    ensures AddHeaders(request, lines).Accepted? <==> AllHeaders(lines)
    ensures AllHeaders(lines) ==>
              AddHeaders(request, lines) == Accepted(request.(headers := Fold(request.headers, lines)))
    decreases |lines|
  {
    if lines != [] && IsHeader(lines[0]) {
      AddHeadersIs(request.(headers := AddHeader(request.headers, lines[0])), lines[1..]);
      assert AllHeaders(lines[1..]) ==> AllHeaders(lines) by {
        assert lines == [lines[0]] + lines[1..];
      }
    }
  }

  /** Every line repeats a unique header that is stored already. */
  predicate NothingNew(headers: map<string, string>, lines: seq<string>)
    requires AllHeaders(lines)
  {
    forall i {:trigger Key(lines[i])} :: 0 <= i < |lines| ==>
      Key(lines[i]) in UNIQUE_HEADERS && Key(lines[i]) in headers
  }

  lemma {:induction false} GivenValues(lines: seq<string>, i: nat)
    requires AllHeaders(lines) && i < |lines|
    ensures Values(lines, Key(lines[i])) != []
    decreases |lines|
  {
    if i > 0 { GivenValues(lines[1..], i - 1); }
  }

  lemma {:induction false} OldStays(headers: map<string, string>, lines: seq<string>)
    requires AllHeaders(lines) && NothingNew(headers, lines)
    ensures Fold(headers, lines) == headers
    decreases |lines|
  {
    if lines != [] { OldStays(headers, lines[1..]); }
  }

  lemma NewShows(headers: map<string, string>, lines: seq<string>, i: nat)
    requires AllHeaders(lines) && i < |lines|
    requires Key(lines[i]) !in UNIQUE_HEADERS || Key(lines[i]) !in headers
    ensures Fold(headers, lines) != headers
  {
    var key := Key(lines[i]);
    GivenValues(lines, i);
    FoldValue(headers, lines, key);
    if key in headers {
      var values := Values(lines, key);
      JoinCons(headers[key], values, ", ");
      assert |Merged(key, [headers[key]] + values)| > |headers[key]|;
    }
  }

  /** Header lines leave the map as it is exactly when each repeats a unique
      header that is stored already. */
  lemma FoldUnchangedExactly(headers: map<string, string>, lines: seq<string>)
    requires AllHeaders(lines)
    ensures Fold(headers, lines) == headers <==> NothingNew(headers, lines)
  {
    if NothingNew(headers, lines) {
      OldStays(headers, lines);
    } else {
      var i :| 0 <= i < |lines| && !(Key(lines[i]) in UNIQUE_HEADERS && Key(lines[i]) in headers);
      NewShows(headers, lines, i);
    }
  }

  /** Two lists of header lines give every key the same value. */
  ghost predicate SameValues(a: seq<string>, b: seq<string>)
    requires AllHeaders(a) && AllHeaders(b)
  {
    forall key: string :: SameValue(a, b, key)
  }

  predicate SameValue(a: seq<string>, b: seq<string>, key: string)
    requires AllHeaders(a) && AllHeaders(b)
  {
    var x, y := Values(a, key), Values(b, key);
    if x == [] || y == [] then x == y else Merged(key, x) == Merged(key, y)
  }

  lemma FoldSameExactly(a: seq<string>, b: seq<string>)
    requires AllHeaders(a) && AllHeaders(b)
    ensures Fold(map[], a) == Fold(map[], b) <==> SameValues(a, b)
  {
    forall key: string ensures FoldAt(a, key) && FoldAt(b, key) {
      FoldIsAt(a, key);
      FoldIsAt(b, key);
    }
    if SameValues(a, b) {
      forall key: string
        ensures key in Fold(map[], a) <==> key in Fold(map[], b)
        ensures key in Fold(map[], a) ==> Fold(map[], a)[key] == Fold(map[], b)[key]
      {
        assert SameValue(a, b, key) && FoldAt(a, key) && FoldAt(b, key);
      }
    }
    if Fold(map[], a) == Fold(map[], b) {
      forall key: string ensures SameValue(a, b, key) { assert FoldAt(a, key) && FoldAt(b, key); }
    }
  }

  /** What a fresh map holds for `key` after `lines`. */
  predicate FoldAt(lines: seq<string>, key: string)
    requires AllHeaders(lines)
  {
    var headers, values := Fold(map[], lines), Values(lines, key);
    (key in headers <==> values != []) && (values != [] ==> headers[key] == Merged(key, values))
  }

  lemma FoldIsAt(lines: seq<string>, key: string)
    requires AllHeaders(lines)
    ensures FoldAt(lines, key)
  {
    FoldValue(map[], lines, key);
    assert [] + Values(lines, key) == Values(lines, key);
  }

  lemma HeadersConcat(a: seq<string>, b: seq<string>)
    requires AllHeaders(a) && AllHeaders(b)
    ensures AllHeaders(a + b)
  {
  }

  lemma {:induction false} ValuesConcat(a: seq<string>, b: seq<string>, key: string)
    requires AllHeaders(a) && AllHeaders(b)
    ensures AllHeaders(a + b) && Values(a + b, key) == Values(a, key) + Values(b, key)
    decreases |a|
  {
    HeadersConcat(a, b);
    if a == [] {
      assert a + b == b;
    } else {
      ValuesConcat(a[1..], b, key);
      assert (a + b)[1..] == a[1..] + b && (a + b)[0] == a[0];
      var given := if Key(a[0]) == key then [Value(a[0])] else [];
      assert given + (Values(a[1..], key) + Values(b, key)) == given + Values(a[1..], key) + Values(b, key);
    }
  }

  lemma {:induction false} ValuesGiven(lines: seq<string>, key: string) returns (i: nat)
    requires AllHeaders(lines) && Values(lines, key) != []
    ensures i < |lines| && Key(lines[i]) == key
    decreases |lines|
  {
    i := 0;
    if Key(lines[0]) != key {
      i := ValuesGiven(lines[1..], key);
      i := i + 1;
    }
  }

  /** Characters in the values, with a separator behind each. */
  function Weight(values: seq<string>): nat {
    if values == [] then 0 else |values[0]| + 2 + Weight(values[1..])
  }

  lemma {:induction false} WeightConcat(a: seq<string>, b: seq<string>)
    ensures Weight(a + b) == Weight(a) + Weight(b)
    decreases |a|
  {
    if a == [] {
      assert a + b == b;
    } else {
      WeightConcat(a[1..], b);
      assert (a + b)[1..] == a[1..] + b;
    }
  }

  lemma {:induction false} JoinWeight(values: seq<string>)
    requires values != []
    ensures |Join(values, ", ")| + 2 == Weight(values)
    decreases |values|
  {
    if |values| > 1 { JoinWeight(values[1..]); }
  }
}
