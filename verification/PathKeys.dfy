/** What the encoded paths promise to the persistence layer: encoding can be undone, and
    subtrees and collection items are exactly ranges of keys. */
module PathKeys {
  import opened Basics
  import opened PathEncoder

  // ----- Round trip

  lemma {:induction false} SplitEscape(name: string, rest: string, before: string)
    ensures Split(Escape(name) + rest, before) == Split(rest, before + name)
  {
    if name == "" {
      assert Escape(name) + rest == rest && before + name == before;
    } else {
      var r := EscapeRune(name[0]);
      var tail := Escape(name[1..]) + rest;
      assert Escape(name) + rest == r + tail;
      assert NeedsEscape(name[0]) ==> (r + tail)[1] == name[0] && (r + tail)[2..] == tail;
      assert !NeedsEscape(name[0]) ==> (r + tail)[1..] == tail;
      SplitEscape(name[1..], rest, before + [name[0]]);
      assert before + [name[0]] + name[1..] == before + name;
    }
  }

  /** Splitting the text of a path, followed by nothing or by a separator and more text. */
  lemma {:induction false} SplitJoin(path: Path, last: char, rest: string)
    requires path != [] && IsSeparator(last)
    requires rest == "" || IsSeparator(rest[0])
    ensures Split(Join(path, last) + rest, "") ==
            if rest == "" then Ok(path) else PrependAll(path, Split(rest[1..], ""))
  {
    if |path| == 1 {
      SplitEscape(path[0], rest, "");
      assert "" + path[0] == path[0] && path == [path[0]];
    } else {
      var sep := [if |path| == 2 then last else NAME_SEPARATOR];
      var more := Join(path[1..], last) + rest;
      assert Join(path, last) + rest == Escape(path[0]) + (sep + more);
      SplitEscape(path[0], sep + more, "");
      assert "" + path[0] == path[0] && (sep + more)[1..] == more;
      SplitJoin(path[1..], last, rest);
      PrependAllCons(path, if rest == "" then Err(Internal) else Split(rest[1..], ""));
    }
  }

  lemma PrependAllCons(path: Path, rest: Result<Path>)
    requires path != []
    ensures Prepend(path[0], PrependAll(path[1..], rest)) == PrependAll(path, rest)
    ensures [path[0]] + path[1..] == path
  {
    if rest.Ok? {
      assert [path[0]] + (path[1..] + rest.value) == path + rest.value;
    }
  }

  lemma {:induction false} EscapeValid(name: string)
    requires RUNE_ERROR !in name
    ensures RUNE_ERROR !in Escape(name)
    ensures name != "" ==> Escape(name) != ""
  {
    if name == "" {
    } else {
      EscapeValid(name[1..]);
    }
  }

  lemma {:induction false} JoinValid(path: Path, last: char)
    requires path != [] && ValidPath(path) && IsSeparator(last)
    ensures RUNE_ERROR !in Join(path, last) && Join(path, last) != ""
  {
    assert ValidName(path[0]);
    EscapeValid(path[0]);
    if |path| > 1 {
      JoinValid(path[1..], last);
    }
  }

  /** Encoding succeeds on exactly the paths of valid names, and is undone by decoding. */
  lemma RoundTrip(path: Path, inCollection: bool)
    ensures Encoded(path, inCollection).Ok? <==> ValidPath(path)
    ensures ValidPath(path) ==> Decoded(Encoded(path, inCollection).value) == Ok(path)
    ensures ValidPath(path) && path != [] ==> Encoded(path, inCollection).value != ""
  {
    if ValidPath(path) && path != [] {
      var last := Separator(inCollection);
      JoinValid(path, last);
      SplitJoin(path, last, "");
      assert Join(path, last) + "" == Join(path, last);
    }
  }

  lemma {:induction false} LastSeparatorShows(path: Path)
    requires |path| >= 2
    ensures Join(path, NAME_SEPARATOR) != Join(path, COLLECTION_SEPARATOR)
  {
    var n := |Escape(path[0])|;
    if |path| == 2 {
      assert Join(path, NAME_SEPARATOR)[n] != Join(path, COLLECTION_SEPARATOR)[n];
    } else {
      LastSeparatorShows(path[1..]);
      assert Join(path, NAME_SEPARATOR)[n + 1..] == Join(path[1..], NAME_SEPARATOR);
      assert Join(path, COLLECTION_SEPARATOR)[n + 1..] == Join(path[1..], COLLECTION_SEPARATOR);
    }
  }

  /** Two nodes have the same key only if they have the same path and, below the first
      level, are both or neither direct children of a collection. */
  lemma EncodeInjective(p: Path, pInCollection: bool, q: Path, qInCollection: bool)
    requires ValidPath(p) && ValidPath(q)
    requires Encoded(p, pInCollection) == Encoded(q, qInCollection)
    ensures p == q && (|p| >= 2 ==> pInCollection == qInCollection)
  {
    RoundTrip(p, pInCollection);
    RoundTrip(q, qInCollection);
    if |p| >= 2 && pInCollection != qInCollection {
      LastSeparatorShows(p);
    }
  }

  // ----- Which texts decode

  function TrailingEscapes(s: string): nat {
    if s == "" || s[|s| - 1] != ESCAPE_CHAR then 0 else 1 + TrailingEscapes(s[..|s| - 1])
  }

  lemma {:induction false} TrailingEscapesDrop(s: string, n: nat)
    requires n <= |s|
    ensures if TrailingEscapes(s) < |s| - n then TrailingEscapes(s[n..]) == TrailingEscapes(s)
            else TrailingEscapes(s[n..]) == |s| - n
  {
    if n < |s| {
      assert s[n..][..|s[n..]| - 1] == s[..|s| - 1][n..];
      TrailingEscapesDrop(s[..|s| - 1], n);
    }
  }

  lemma {:induction false} SplitDomain(s: string, name: string)
    ensures Split(s, name).Ok? <==> TrailingEscapes(s) % 2 == 0
  {
    if s == "" {
    } else if s[0] == ESCAPE_CHAR {
      if |s| > 1 {
        SplitDomain(s[2..], name + [s[1]]);
        TrailingEscapesDrop(s, 2);
        TrailingEscapesDrop(s, 1);
        AllEscapes(s);
      }
    } else {
      SplitDomain(s[1..], "");
      SplitDomain(s[1..], name + [s[0]]);
      TrailingEscapesDrop(s, 1);
      AllEscapes(s);
    }
  }

  lemma {:induction false} AllEscapes(s: string)
    ensures TrailingEscapes(s) <= |s|
    ensures TrailingEscapes(s) == |s| > 0 ==> s[0] == ESCAPE_CHAR
    ensures TrailingEscapes(s) == |s| - 1 ==> s[0] != ESCAPE_CHAR
  {
    if s == "" {
    } else {
      AllEscapes(s[..|s| - 1]);
    }
  }

  /** A text decodes exactly if it is valid UTF-8 and does not end inside an escape, that is,
      in an odd number of escape characters. */
  lemma DecodeDomain(s: string)
    ensures Decoded(s).Ok? <==> RUNE_ERROR !in s && TrailingEscapes(s) % 2 == 0
  {
    SplitDomain(s, "");
  }

  // ----- Range queries

  /** Lexicographic order of keys, as a database compares them. */
  predicate Less(a: string, b: string) {
    b != "" && (a == "" || a[0] < b[0] || (a[0] == b[0] && Less(a[1..], b[1..])))
  }

  predicate InRange(lo: string, key: string, hi: string) {
    !Less(key, lo) && Less(key, hi)
  }

  /** Between `x` followed by `lo` and `x` followed by the next bound lie exactly
      the extensions of `x` that continue in between. */
  lemma {:induction false} RangeOfPrefix(x: string, lo: string, hi: char, key: string)
    requires lo == "" || (|lo| == 1 && lo[0] < hi)
    ensures InRange(x + lo, key, x + [hi]) <==>
            x <= key && if key == x then lo == "" else key[|x|] < hi && (lo != "" ==> lo[0] <= key[|x|])
  {
    if x == "" {
      assert x + lo == lo && x + [hi] == [hi] && [hi][1..] == "";
      assert lo != "" ==> lo[1..] == "";
      if key != "" {
        assert !Less(key[1..], "");
      }
    } else if key != "" && key[0] == x[0] {
      RangeOfPrefix(x[1..], lo, hi, key[1..]);
      assert (x + lo)[1..] == x[1..] + lo && (x + [hi])[1..] == x[1..] + [hi];
      assert x <= key <==> x[1..] <= key[1..];
      assert key == x <==> key[1..] == x[1..];
    }
  }

  /** Every code point of `s` outside an escape is at least the collection separator. */
  predicate WellEscaped(s: string) {
    if |s| == 0 then true
    else if s[0] == ESCAPE_CHAR then |s| >= 2 && WellEscaped(s[2..])
    else s[0] >= COLLECTION_SEPARATOR && WellEscaped(s[1..])
  }

  lemma {:induction false} WellEscapedEscape(name: string, rest: string)
    ensures WellEscaped(Escape(name) + rest) == WellEscaped(rest)
  {
    if name == "" {
      assert Escape(name) + rest == rest;
    } else {
      var r := EscapeRune(name[0]);
      var tail := Escape(name[1..]) + rest;
      assert Escape(name) + rest == r + tail;
      assert NeedsEscape(name[0]) ==> (r + tail)[2..] == tail;
      assert !NeedsEscape(name[0]) ==> (r + tail)[1..] == tail;
      WellEscapedEscape(name[1..], rest);
    }
  }

  function NextSeparator(path: Path, last: char): char {
    if |path| == 2 then last else NAME_SEPARATOR
  }

  lemma JoinCons(path: Path, last: char, rest: string)
    requires |path| >= 2
    ensures Join(path, last) + rest == Escape(path[0]) + ([NextSeparator(path, last)] + (Join(path[1..], last) + rest))
  {
  }

  lemma {:induction false} WellEscapedJoin(path: Path, last: char, rest: string)
    requires IsSeparator(last)
    ensures WellEscaped(Join(path, last) + rest) == WellEscaped(rest)
  {
    if |path| == 0 {
      assert Join(path, last) + rest == rest;
    } else if |path| == 1 {
      WellEscapedEscape(path[0], rest);
    } else {
      var more := Join(path[1..], last) + rest;
      JoinCons(path, last, rest);
      WellEscapedEscape(path[0], [NextSeparator(path, last)] + more);
      assert ([NextSeparator(path, last)] + more)[1..] == more;
      WellEscapedJoin(path[1..], last, rest);
    }
  }

  /** The text of a path that extends `p`. */
  lemma {:induction false} JoinExtension(p: Path, more: Path, last: char)
    requires p != [] && more != []
    ensures Join(p + more, last) ==
            Join(p, NAME_SEPARATOR) + [if |more| == 1 then last else NAME_SEPARATOR] + Join(more, last)
  {
    assert (p + more)[1..] == p[1..] + more;
    if |p| == 1 {
      assert p[1..] + more == more;
    } else {
      JoinExtension(p[1..], more, last);
    }
  }

  lemma SplitWhole(q: Path, last: char)
    requires q != [] && IsSeparator(last)
    ensures Split(Join(q, last), "") == Ok(q)
  {
    var none := Join(q, last)[|Join(q, last)|..];
    SplitJoin(q, last, none);
    assert Join(q, last) + none == Join(q, last);
  }

  lemma RestOf(x: string, key: string) returns (rest: string)
    requires x <= key
    ensures key == x + rest && (rest != "" ==> |key| > |x| && rest[0] == key[|x|])
  {
    rest := key[|x|..];
  }

  /** If the key of `q` continues that of `p` by nothing or by something smaller than '%',
      then `q` is `p` or lies below it. */
  lemma KeyContinues(p: Path, pLast: char, q: Path, last: char)
    requires p != [] && ValidPath(p) && q != [] && ValidPath(q) && IsSeparator(pLast) && IsSeparator(last)
    requires Join(p, pLast) <= Join(q, last)
    requires var n := |Join(p, pLast)|; |Join(q, last)| > n ==> Join(q, last)[n] < '%'
    ensures p <= q
  {
    var rest := RestOf(Join(p, pLast), Join(q, last));
    if rest != "" {
      ContinuationStartsWithSeparator(p, pLast, q, last, rest);
    }
    ExtensionDecodes(p, pLast, q, last, rest);
  }

  lemma ExtensionDecodes(p: Path, pLast: char, q: Path, last: char, rest: string)
    requires p != [] && q != [] && IsSeparator(pLast) && IsSeparator(last)
    requires Join(q, last) == Join(p, pLast) + rest && (rest == "" || IsSeparator(rest[0]))
    ensures p <= q
  {
    SplitWhole(q, last);
    SplitJoin(p, pLast, rest);
  }

  lemma ContinuationStartsWithSeparator(p: Path, pLast: char, q: Path, last: char, rest: string)
    requires IsSeparator(pLast) && IsSeparator(last) && rest != "" && rest[0] < '%'
    requires Join(q, last) == Join(p, pLast) + rest
    ensures IsSeparator(rest[0])
  {
    var none := rest[|rest|..];
    WellEscapedJoin(q, last, none);
    assert Join(q, last) + none == Join(q, last);
    WellEscapedJoin(p, pLast, rest);
  }

  /** The keys of the subtree at `p` are those between the key of `p` and that key
      followed by '%'.  `p` is not a direct collection item, `q` is any other node or `p`. */
  lemma SubtreeRange(p: Path, q: Path, qInCollection: bool)
    requires p != [] && ValidPath(p) && ValidPath(q)
    requires p == q ==> !qInCollection
    ensures var x := Encoded(p, false).value;
            InRange(x, Encoded(q, qInCollection).value, x + "%") <==> p <= q
  {
    var last := Separator(qInCollection);
    var x, key := Join(p, NAME_SEPARATOR), Join(q, last);
    assert x + "" == x;
    RangeOfPrefix(x, "", '%', key);
    JoinValid(p, NAME_SEPARATOR);
    if p <= q && p != q {
      assert q == p + q[|p|..];
      JoinExtension(p, q[|p|..], last);
    } else if InRange(x, key, x + "%") && q != [] {
      KeyContinues(p, NAME_SEPARATOR, q, last);
    }
  }

  /** The key of a direct collection item is no prefix of the keys below it. */
  lemma ItemKeyIsNoPrefix(p: Path, q: Path, last: char)
    requires |p| >= 2 && p <= q && p != q
    ensures !(Join(p, COLLECTION_SEPARATOR) <= Join(q, last))
  {
    LastSeparatorShows(p);
    JoinLength(p, COLLECTION_SEPARATOR);
    assert q == p + q[|p|..];
    JoinExtension(p, q[|p|..], last);
    assert Join(q, last)[..|Join(p, NAME_SEPARATOR)|] == Join(p, NAME_SEPARATOR);
  }

  /** For a direct item of a collection that query finds the item alone: the keys of the
      nodes below it hold the other separator in front of its name. */
  lemma ItemRangeHoldsItemOnly(p: Path, q: Path, qInCollection: bool)
    requires |p| >= 2 && ValidPath(p) && ValidPath(q)
    ensures var x := Encoded(p, true).value;
            InRange(x, Encoded(q, qInCollection).value, x + "%") <==> q == p && qInCollection
  {
    var last := Separator(qInCollection);
    var x, key := Join(p, COLLECTION_SEPARATOR), Join(q, last);
    assert x + "" == x;
    RangeOfPrefix(x, "", '%', key);
    JoinValid(p, COLLECTION_SEPARATOR);
    if q == p {
      LastSeparatorShows(p);
      JoinLength(p, COLLECTION_SEPARATOR);
    } else if p <= q {
      ItemKeyIsNoPrefix(p, q, last);
    } else if InRange(x, key, x + "%") && q != [] {
      KeyContinues(p, COLLECTION_SEPARATOR, q, last);
    }
  }

  /** The query for the subtree of a node is exact for all nodes of the tree exactly if the
      node is not a direct item of a collection, or has nothing below it. */
  lemma SubtreeQueryExact(p: Path, pInCollection: bool, q: Path, qInCollection: bool)
    requires |p| >= 2 && ValidPath(p) && ValidPath(q) && (p == q ==> qInCollection == pInCollection)
    ensures var x := Encoded(p, pInCollection).value;
            (InRange(x, Encoded(q, qInCollection).value, x + "%") <==> p <= q) <==> !(pInCollection && p <= q && p != q)
  {
    if pInCollection {
      ItemRangeHoldsItemOnly(p, q, qInCollection);
    } else {
      SubtreeRange(p, q, qInCollection);
    }
  }

  /** The direct items of the collection at `p` are the keys between its key followed by
      '#' and its key followed by '$'. */
  lemma CollectionRange(p: Path, q: Path, qInCollection: bool)
    requires p != [] && ValidPath(p) && ValidPath(q)
    ensures var x := Encoded(p, false).value;
            InRange(x + "#", Encoded(q, qInCollection).value, x + "$") <==>
            qInCollection && |q| == |p| + 1 && p <= q
  {
    var last := Separator(qInCollection);
    var x, key := Join(p, NAME_SEPARATOR), Join(q, last);
    RangeOfPrefix(x, "#", '$', key);
    JoinValid(p, NAME_SEPARATOR);
    if q != [] && x <= key && |key| > |x| && key[|x|] == '#' {
      KeyContinues(p, NAME_SEPARATOR, q, last);
    }
    if p <= q && p != q {
      assert q == p + q[|p|..];
      JoinExtension(p, q[|p|..], last);
    }
    if p == q {
      JoinLength(p, last);
    }
  }

  lemma {:induction false} JoinLength(path: Path, last: char)
    ensures |Join(path, last)| == |Join(path, NAME_SEPARATOR)|
  {
    if |path| <= 1 {
    } else {
      JoinLength(path[1..], last);
    }
  }

  lemma OnlyRootDecodesToRoot(s: string)
    ensures Decoded(s) == Ok([]) <==> s == ""
  {
    SplitNonEmpty(s, "");
  }

  lemma {:induction false} SplitNonEmpty(s: string, name: string)
    ensures Split(s, name).Ok? ==> Split(s, name).value != []
  {
    if s != "" && s[0] == ESCAPE_CHAR && |s| > 1 {
      SplitNonEmpty(s[2..], name + [s[1]]);
    } else if s != "" && !IsSeparator(s[0]) && s[0] != ESCAPE_CHAR {
      SplitNonEmpty(s[1..], name + [s[0]]);
    }
  }

  // ----- The format

  /** Of a single code point, the escape character, both separators and everything below '#' are
      escaped, and nothing else. */
  lemma EscapeOfRune(c: char)
    ensures Escape([c]) == if c == '\\' || c == '$' || c <= '#' then ['\\', c] else [c]
  {
    assert Escape([c]) == EscapeRune(c) + Escape([c][1..]);
  }

  /** A name is escaped code point by code point. */
  lemma {:induction false} EscapeAppend(a: string, b: string)
    ensures Escape(a + b) == Escape(a) + Escape(b)
  {
    if a == "" {
      assert a + b == b;
    } else {
      assert (a + b)[1..] == a[1..] + b;
      EscapeAppend(a[1..], b);
    }
  }

  /** The key of the root is empty, that of its child is the escaped name, and that of a node
      further down is its parent's, a separator by the kind of the parent, and the escaped name. */
  lemma KeyOfChild(p: Path, name: string, inCollection: bool)
    requires ValidPath(p) && ValidName(name)
    ensures Encoded([], inCollection) == Ok("") && Encoded([name], inCollection) == Ok(Escape(name))
    ensures p != [] ==>
              Encoded(p + [name], inCollection) ==
              Ok(Encoded(p, false).value + (if inCollection then "#" else "$") + Escape(name))
  {
    if p != [] {
      JoinChild(p, name, Separator(inCollection));
    }
  }

  lemma {:induction false} JoinChild(p: Path, name: string, last: char)
    requires p != []
    ensures Join(p + [name], last) == Join(p, NAME_SEPARATOR) + [last] + Escape(name)
  {
    var all := p + [name];
    assert all[0] == p[0] && all[1..] == p[1..] + [name];
    if |p| == 1 {
      assert all[1..] == [name];
    } else {
      JoinChild(p[1..], name, last);
      Associate(Escape(p[0]) + [NAME_SEPARATOR], Join(p[1..], NAME_SEPARATOR), [last], Escape(name));
    }
  }

  /** Encoding fails with the error of the first name that is empty or not UTF-8. */
  lemma EncodeError(path: Path, inCollection: bool, i: nat)
    requires i < |path| && (path[i] == "" || '\U{FFFD}' in path[i])
    requires forall j | 0 <= j < i :: path[j] != "" && '\U{FFFD}' !in path[j]
    ensures Encoded(path, inCollection) == Err(if path[i] == "" then Internal else InvalidArgument)
  {
    PathErrorAt(path, i);
  }

  /** Decoding fails because of text that is not UTF-8, or because it ends inside an escape. */
  lemma DecodeError(s: string)
    ensures Decoded(s).Err? ==> Decoded(s) == Err(if '\U{FFFD}' in s then InvalidArgument else Internal)
  {
    SplitError(s, "");
  }

  lemma {:induction false} SplitError(s: string, name: string)
    ensures Split(s, name).Err? ==> Split(s, name) == Err(Internal)
  {
    if s != "" {
      if s[0] == ESCAPE_CHAR {
        if |s| > 1 {
          SplitError(s[2..], name + [s[1]]);
        }
      } else if IsSeparator(s[0]) {
        SplitError(s[1..], "");
      } else {
        SplitError(s[1..], name + [s[0]]);
      }
    }
  }
}
