/** What a table's file name is the hash of, and which tables share one text (`table_file_name`). */
module CacheNames {
  import opened Wrappers
  import opened Text
  import opened Cache

  predicate NoNul(s: string) { '\0' !in s }

  function ParentPieces(parents: seq<string>): seq<string> {
    if parents == [] then [""] else parents
  }

  lemma {:induction false} JoinAppend(parts: seq<string>, last: string, c: char)
    requires parts != []
    ensures Join(parts + [last], c) == Join(parts, c) + [c] + last
  {
    if |parts| > 1 {
      assert (parts + [last])[1..] == parts[1..] + [last];
      JoinAppend(parts[1..], last, c);
    } else {
      assert (parts + [last])[1..] == [last];
    }
  }

  lemma TableKeyPieces(kind: string, parents: seq<string>, filter: Option<string>)
    requires NoNul(kind) && NoNul(OrEmpty(filter)) && forall i :: 0 <= i < |parents| ==> NoNul(parents[i])
    ensures Split(TableKey(kind, parents, filter), '\0') ==
              [kind, NatText(|parents|)] + ParentPieces(parents) + [OrEmpty(filter)]
  {
    hide *;
    var n, last := NatText(|parents|), OrEmpty(filter);
    var behind := JoinNul(parents) + ['\0'] + last;
    BehindTheCount(parents, filter);
    NumbersHaveNoNul(|parents|);
    TwoPieces(kind, n, behind);
    TableKeyIs(kind, parents, filter);
    assert [kind, n] + (ParentPieces(parents) + [last]) == [kind, n] + ParentPieces(parents) + [last];
  }

  lemma NumbersHaveNoNul(n: nat)
    ensures NoNul(NatText(n))
  {}

  lemma TableKeyIs(kind: string, parents: seq<string>, filter: Option<string>)
    ensures TableKey(kind, parents, filter) ==
              kind + ['\0'] + (NatText(|parents|) + ['\0'] + (JoinNul(parents) + ['\0'] + OrEmpty(filter)))
  {}

  lemma TwoPieces(a: string, b: string, rest: string)
    requires NoNul(a) && NoNul(b)
    ensures Split(a + ['\0'] + (b + ['\0'] + rest), '\0') == [a, b] + Split(rest, '\0')
  {
    SplitPiece(b, rest, '\0');
    SplitPiece(a, b + ['\0'] + rest, '\0');
    hide Split;
  }

  lemma BehindTheCount(parents: seq<string>, filter: Option<string>)
    requires NoNul(OrEmpty(filter)) && forall i :: 0 <= i < |parents| ==> NoNul(parents[i])
    ensures Split(JoinNul(parents) + ['\0'] + OrEmpty(filter), '\0') == ParentPieces(parents) + [OrEmpty(filter)]
  {
    var pieces := ParentPieces(parents);
    JoinAppend(pieces, OrEmpty(filter), '\0');
    assert Join(pieces, '\0') == JoinNul(parents);
    hide Join, Split;
    SplitJoin(pieces + [OrEmpty(filter)], '\0');
  }

  /** Two tables are hashed from one text only when kind, parents and filter agree, no filter counting
      as an empty one, as long as none of them holds a NUL. */
  lemma TableKeysTellApart(kind: string, parents: seq<string>, filter: Option<string>,
                           kind': string, parents': seq<string>, filter': Option<string>)
    requires NoNul(kind) && NoNul(OrEmpty(filter)) && forall i :: 0 <= i < |parents| ==> NoNul(parents[i])
    requires NoNul(kind') && NoNul(OrEmpty(filter')) && forall i :: 0 <= i < |parents'| ==> NoNul(parents'[i])
    ensures TableKey(kind, parents, filter) == TableKey(kind', parents', filter') <==>
              kind == kind' && parents == parents' && OrEmpty(filter) == OrEmpty(filter')
  {
    if TableKey(kind, parents, filter) == TableKey(kind', parents', filter') {
      TableKeyPieces(kind, parents, filter);
      TableKeyPieces(kind', parents', filter');
      var a := [kind, NatText(|parents|)] + ParentPieces(parents) + [OrEmpty(filter)];
      var b := [kind', NatText(|parents'|)] + ParentPieces(parents') + [OrEmpty(filter')];
      assert a == b && a[0] == b[0] && a[1] == b[1] && a[|a| - 1] == b[|b| - 1];
      NatOfNatText(|parents|);
      NatOfNatText(|parents'|);
      assert ParentPieces(parents) == a[2..|a| - 1] == b[2..|b| - 1] == ParentPieces(parents');
    }
  }

  // ---- parents that collide ----

  /** The pieces of a text with a separator in it are the pieces on either side. */
  lemma {:induction false} SplitConcat(a: string, b: string, c: char)
    ensures Split(a + [c] + b, c) == Split(a, c) + Split(b, c)
  {
    if a == "" {
      assert ("" + [c] + b)[1..] == b;
    } else {
      assert (a + [c] + b)[1..] == a[1..] + [c] + b;
      SplitConcat(a[1..], b, c);
    }
  }

  lemma {:induction false} OnePieceMeansNone(s: string, c: char)
    ensures |Split(s, c)| == 1 <==> c !in s
    ensures |Split(s, c)| >= 1
  {
    if s != "" && s[0] != c {
      OnePieceMeansNone(s[1..], c);
    }
  }

  /** A joined text has a piece for each part, and more when a part holds the separator. */
  lemma {:induction false} PiecesOfJoin(parts: seq<string>, c: char)
    requires parts != []
    ensures |Split(Join(parts, c), c)| >= |parts|
    ensures |Split(Join(parts, c), c)| == |parts| <==> forall i :: 0 <= i < |parts| ==> c !in parts[i]
  {
    OnePieceMeansNone(parts[0], c);
    if |parts| > 1 {
      PiecesOfJoin(parts[1..], c);
      SplitConcat(parts[0], Join(parts[1..], c), c);
      assert forall i :: 1 <= i < |parts| ==> parts[i] == parts[1..][i - 1];
      assert (forall i :: 0 <= i < |parts| ==> c !in parts[i]) <==>
             c !in parts[0] && forall i :: 0 <= i < |parts[1..]| ==> c !in parts[1..][i];
      hide Split, Join;
    }
  }

  /** Moving the boundary between two neighbours leaves the joined text as it is. */
  lemma {:induction false} BoundaryMoves(parts: seq<string>, i: nat, x: string, y: string, c: char)
    requires i + 1 < |parts| && x + [c] + y == parts[i] + [c] + parts[i + 1]
    ensures Join(parts[i := x][i + 1 := y], c) == Join(parts, c)
    decreases i
  {
    var moved := parts[i := x][i + 1 := y];
    if i > 0 {
      assert moved[1..] == parts[1..][i - 1 := x][i := y];
      BoundaryMoves(parts[1..], i - 1, x, y, c);
    } else {
      assert moved[2..] == parts[2..];
      assert moved[1..][1..] == moved[2..] && parts[1..][1..] == parts[2..];
      if |parts| > 2 {
        var rest := Join(parts[2..], c);
        assert Join(moved, c) == x + [c] + (y + [c] + rest);
        assert Join(parts, c) == parts[0] + [c] + (parts[1] + [c] + rest);
        assert x + [c] + (y + [c] + rest) == (x + [c] + y) + ([c] + rest);
        assert parts[0] + [c] + (parts[1] + [c] + rest) == (parts[0] + [c] + parts[1]) + ([c] + rest);
      }
    }
  }

  /** For one kind and filter the text gives how many parents there are, and their joined text. */
  lemma KeyIsCountAndJoin(kind: string, filter: Option<string>, parents: seq<string>, parents': seq<string>)
    ensures TableKey(kind, parents, filter) == TableKey(kind, parents', filter) <==>
              |parents| == |parents'| && JoinNul(parents) == JoinNul(parents')
  {
    var n, n' := NatText(|parents|), NatText(|parents'|);
    var rest, rest' := JoinNul(parents) + ['\0'] + OrEmpty(filter), JoinNul(parents') + ['\0'] + OrEmpty(filter);
    var a, b := n + ['\0'] + rest, n' + ['\0'] + rest';
    NatOfNatText(|parents|);
    NatOfNatText(|parents'|);
    NumbersHaveNoNul(|parents|);
    NumbersHaveNoNul(|parents'|);
    TableKeyIs(kind, parents, filter);
    TableKeyIs(kind, parents', filter);
    hide TableKey, NatText, JoinNul, OrEmpty;
    if TableKey(kind, parents, filter) == TableKey(kind, parents', filter) {
      BehindPrefix(kind + ['\0'], a, b);
      FirstPieceSplits(n, rest, n', rest');
      assert JoinNul(parents) + (['\0'] + OrEmpty(filter)) == rest &&
             JoinNul(parents') + (['\0'] + OrEmpty(filter)) == rest';
      BeforeSuffix(JoinNul(parents), JoinNul(parents'), ['\0'] + OrEmpty(filter));
    }
  }

  lemma BehindPrefix(x: string, a: string, b: string)
    requires x + a == x + b
    ensures a == b
  {
    assert (x + a)[|x|..] == a && (x + b)[|x|..] == b;
  }

  lemma BeforeSuffix(a: string, b: string, x: string)
    requires a + x == b + x
    ensures a == b
  {
    assert |a| == |b| && (a + x)[..|a|] == a && (b + x)[..|b|] == b;
  }

  lemma FirstPieceSplits(a: string, x: string, b: string, y: string)
    requires NoNul(a) && NoNul(b) && a + ['\0'] + x == b + ['\0'] + y
    ensures a == b && x == y
  {
    SplitPiece(a, x, '\0');
    SplitPiece(b, y, '\0');
    assert ([a] + Split(x, '\0'))[0] == a && ([b] + Split(y, '\0'))[0] == b;
    assert x == (a + ['\0'] + x)[|a| + 1..] && y == (b + ['\0'] + y)[|b| + 1..];
  }

  /** Other parents share a table's text exactly when there are two of them at least and one holds a
      NUL: then the boundary to a neighbour can move. */
  lemma NulParentsCollide(kind: string, parents: seq<string>, filter: Option<string>)
    ensures (exists parents' :: parents' != parents &&
                                TableKey(kind, parents', filter) == TableKey(kind, parents, filter)) <==>
              |parents| >= 2 && exists i :: 0 <= i < |parents| && !NoNul(parents[i])
  {
    if |parents| >= 2 && exists i :: 0 <= i < |parents| && !NoNul(parents[i]) {
      var i :| 0 <= i < |parents| && !NoNul(parents[i]);
      var moved := MovedBoundary(parents, i);
      KeyIsCountAndJoin(kind, filter, moved, parents);
    }
    if parents' :| parents' != parents && TableKey(kind, parents', filter) == TableKey(kind, parents, filter) {
      KeyIsCountAndJoin(kind, filter, parents', parents);
      if |parents| >= 2 && forall i :: 0 <= i < |parents| ==> NoNul(parents[i]) {
        PiecesOfJoin(parents, '\0');
        PiecesOfJoin(parents', '\0');
        SplitJoin(parents, '\0');
        SplitJoin(parents', '\0');
        assert false;
      }
    }
  }

  lemma MovedBoundary(parents: seq<string>, i: nat) returns (moved: seq<string>)
    requires |parents| >= 2 && i < |parents| && !NoNul(parents[i])
    ensures moved != parents && |moved| == |parents| && JoinNul(moved) == JoinNul(parents)
  {
    var k :| 0 <= k < |parents[i]| && parents[i][k] == '\0';
    var a, b := parents[i][..k], parents[i][k + 1..];
    assert parents[i] == a + ['\0'] + b;
    if i + 1 < |parents| {
      var c := parents[i + 1];
      moved := parents[i := a][i + 1 := b + ['\0'] + c];
      assert a + ['\0'] + (b + ['\0'] + c) == parents[i] + ['\0'] + c;
      BoundaryMoves(parents, i, a, b + ['\0'] + c, '\0');
      assert moved[i] == a;
    } else {
      var c := parents[i - 1];
      moved := parents[i - 1 := c + ['\0'] + a][i := b];
      assert (c + ['\0'] + a) + ['\0'] + b == c + ['\0'] + parents[i];
      BoundaryMoves(parents, i - 1, c + ['\0'] + a, b, '\0');
      assert moved[i] == b;
    }
  }
}
