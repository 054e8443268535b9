/** The Python string and list primitives the tag patcher is built from:
    `str.startswith`, `str.split(sep)`, `sep.join(list)`, `list.insert`,
    `file.readlines()` and the concatenation of what `file.write` emits. */
module Text {

  const Newline: char := '\n'

  /** `s.startswith(p)` */
  predicate StartsWith(s: string, p: string) {
    |p| <= |s| && s[..|p|] == p
  }

  /** No character `c` occurs in any of the strings of `fs`. */
  predicate NoneContain(fs: seq<string>, c: char) {
    forall j :: 0 <= j < |fs| ==> c !in fs[j]
  }

  /** `s.split(sep)` for a one-character separator: the maximal runs between
      separators, always at least one (possibly empty) piece. */
  function Split(s: string, sep: char): (r: seq<string>)
    ensures |r| >= 1
    ensures NoneContain(r, sep)
    decreases |s|
  {
    if s == [] then [[]]
    else
      var rest := Split(s[1..], sep);
      if s[0] == sep then [[]] + rest
      else [[s[0]] + rest[0]] + rest[1..]
  }

  /** `sep.join(fs)` */
  function Join(fs: seq<string>, sep: char): string
  {
    if fs == [] then []
    else if |fs| == 1 then fs[0]
    else fs[0] + [sep] + Join(fs[1..], sep)
  }

  /** `s.insert(i, x)` on a Python list: an index past the end appends. */
  function Insert<T>(s: seq<T>, i: nat, x: T): (r: seq<T>)
    ensures |r| == |s| + 1
    ensures i <= |s| ==> r[..i] == s[..i] && r[i] == x && r[i + 1..] == s[i..]
    ensures i > |s| ==> r[..|s|] == s && r[|s|] == x
  {
    if i <= |s| then s[..i] + [x] + s[i..] else s + [x]
  }

  /** The text of a file written chunk by chunk with `write`. */
  function Concat(chunks: seq<string>): string
  {
    if chunks == [] then [] else chunks[0] + Concat(chunks[1..])
  }

  /** A line as `readlines` returns it: not empty, and a newline, if any, only
      as its last character. */
  predicate IsLine(l: string) {
    |l| >= 1 && Newline !in l[..|l| - 1]
  }

  predicate EndsWithNewline(l: string) {
    |l| >= 1 && l[|l| - 1] == Newline
  }

  /** Lines as `readlines` cuts them: every line but the last ends with a newline. */
  predicate WellFormedLines(ls: seq<string>) {
    (forall j :: 0 <= j < |ls| ==> IsLine(ls[j])) &&
    (forall j :: 0 <= j < |ls| - 1 ==> EndsWithNewline(ls[j]))
  }

  /** `f.readlines()` on a file whose text is `t`: the text cut after every newline. */
  function ReadLines(t: string): (r: seq<string>)
    ensures WellFormedLines(r)
    ensures t == [] <==> r == []
    decreases |t|
  {
    if t == [] then []
    else if t[0] == Newline then [[Newline]] + ReadLines(t[1..])
    else
      var rest := ReadLines(t[1..]);
      if rest == [] then [[t[0]]]
      else
        assert [t[0]] + rest[0] == [t[0]] + rest[0][..|rest[0]| - 1] + [rest[0][|rest[0]| - 1]];
        [[t[0]] + rest[0]] + rest[1..]
  }

  // ---------------------------------------------------------------- split/join

  lemma JoinConsHead(c: char, f: string, tail: seq<string>, sep: char)
    ensures Join([[c] + f] + tail, sep) == [c] + Join([f] + tail, sep)
  {
    if tail != [] {
      assert ([[c] + f] + tail)[1..] == tail;
      assert ([f] + tail)[1..] == tail;
    }
  }

  /** Joining the pieces of a split gives the string back. */
  lemma {:induction false} JoinSplit(s: string, sep: char)
    ensures Join(Split(s, sep), sep) == s
    decreases |s|
  {
    if s != [] {
      var rest := Split(s[1..], sep);
      JoinSplit(s[1..], sep);
      if s[0] == sep {
        assert ([[]] + rest)[1..] == rest;
      } else {
        assert rest == [rest[0]] + rest[1..];
        JoinConsHead(s[0], rest[0], rest[1..], sep);
        assert [s[0]] + s[1..] == s;
      }
    }
  }

  /** Splitting a string whose first piece is `a` (no separator in `a`). */
  lemma {:induction false} SplitPrefix(a: string, tail: string, sep: char)
    requires sep !in a
    ensures Split(a + tail, sep) == [a + Split(tail, sep)[0]] + Split(tail, sep)[1..]
    decreases |a|
  {
    var st := Split(tail, sep);
    if a == [] {
      assert a + tail == tail && a + st[0] == st[0];
      assert st == [st[0]] + st[1..];
    } else {
      assert (a + tail)[0] == a[0] && (a + tail)[1..] == a[1..] + tail;
      SplitPrefix(a[1..], tail, sep);
      var rest := Split(a[1..] + tail, sep);
      assert rest[0] == a[1..] + st[0] && rest[1..] == st[1..];
      assert [a[0]] + (a[1..] + st[0]) == a + st[0];
    }
  }

  /** Splitting the join of separator-free fields gives the fields back. */
  lemma {:induction false} SplitJoin(fs: seq<string>, sep: char)
    requires |fs| >= 1
    requires NoneContain(fs, sep)
    ensures Split(Join(fs, sep), sep) == fs
    decreases |fs|
  {
    if |fs| == 1 {
      SplitPrefix(fs[0], [], sep);
      assert fs[0] + [] == fs[0];
    } else {
      assert NoneContain(fs[1..], sep) by {
        forall j | 0 <= j < |fs| - 1 ensures sep !in fs[1..][j] { assert fs[1..][j] == fs[j + 1]; }
      }
      SplitJoin(fs[1..], sep);
      var tail := [sep] + Join(fs[1..], sep);
      assert fs[0] + [sep] + Join(fs[1..], sep) == fs[0] + tail;
      SplitPrefix(fs[0], tail, sep);
      assert tail[0] == sep && tail[1..] == Join(fs[1..], sep);
      assert Split(tail, sep) == [[]] + fs[1..];
      assert fs[0] + [] == fs[0];
      assert fs == [fs[0]] + fs[1..];
    }
  }

  /** A join of fields free of `c`, with a separator other than `c`, is free of `c`. */
  lemma {:induction false} JoinAvoids(fs: seq<string>, sep: char, c: char)
    requires sep != c
    requires NoneContain(fs, c)
    ensures c !in Join(fs, sep)
    decreases |fs|
  {
    if |fs| > 1 {
      assert NoneContain(fs[1..], c) by {
        forall j | 0 <= j < |fs| - 1 ensures c !in fs[1..][j] { assert fs[1..][j] == fs[j + 1]; }
      }
      JoinAvoids(fs[1..], sep, c);
    }
  }

  /** A string free of `c` splits into pieces free of `c`. */
  lemma {:induction false} SplitAvoids(s: string, sep: char, c: char)
    requires c !in s
    ensures NoneContain(Split(s, sep), c)
    decreases |s|
  {
    if s != [] {
      SplitAvoids(s[1..], sep, c);
    }
  }

  /** The field list with character `c` appended to its last field. */
  function ExtendLast(fs: seq<string>, c: char): seq<string>
    requires |fs| >= 1
  {
    fs[..|fs| - 1] + [fs[|fs| - 1] + [c]]
  }

  lemma SplitOne(c: char, sep: char)
    requires c != sep
    ensures Split([c], sep) == ExtendLast(Split([], sep), c)
  {
    var one: string := [c];
    var empty: string := [];
    assert one[0] == c && one[1..] == empty;
    var rest := Split(empty, sep);
    assert rest == [empty];
    assert Split(one, sep) == [[c] + rest[0]] + rest[1..];
    assert [c] + rest[0] == [c] && rest[1..] == [];
    assert rest[..0] == [] && rest[0] + [c] == [c];
    assert ExtendLast(rest, c) == [] + [[c]];
  }

  lemma ExtendLastCons(x: string, fs: seq<string>, c: char)
    requires |fs| >= 1
    ensures ExtendLast([x] + fs, c) == [x] + ExtendLast(fs, c)
  {
    assert ([x] + fs)[..|fs|] == [x] + fs[..|fs| - 1];
  }

  lemma ExtendLastHead(h: string, fs: seq<string>, c: char)
    requires |fs| >= 1
    ensures ExtendLast([h + fs[0]] + fs[1..], c)
         == [h + ExtendLast(fs, c)[0]] + ExtendLast(fs, c)[1..]
  {
    var e := ExtendLast(fs, c);
    if |fs| == 1 {
      assert e == [fs[0] + [c]];
      assert h + (fs[0] + [c]) == (h + fs[0]) + [c];
    } else {
      assert e[0] == fs[0] && e[1..] == ExtendLast(fs[1..], c);
      ExtendLastCons(h + fs[0], fs[1..], c);
    }
  }

  /** A character other than the separator, appended to a string, ends up at
      the end of its last piece. */
  lemma {:induction false} SplitSnoc(s: string, c: char, sep: char)
    requires c != sep
    ensures Split(s + [c], sep) == ExtendLast(Split(s, sep), c)
    decreases |s|
  {
    if s == [] {
      assert s + [c] == [c];
      SplitOne(c, sep);
    } else {
      var sc := s + [c];
      assert sc[0] == s[0] && sc[1..] == s[1..] + [c];
      SplitSnoc(s[1..], c, sep);
      var rest := Split(s[1..], sep);
      var restC := Split(s[1..] + [c], sep);
      assert restC == ExtendLast(rest, c);
      if s[0] == sep {
        assert Split(sc, sep) == [[]] + restC;
        assert Split(s, sep) == [[]] + rest;
        ExtendLastCons([], rest, c);
      } else {
        assert Split(sc, sep) == [[s[0]] + restC[0]] + restC[1..];
        assert Split(s, sep) == [[s[0]] + rest[0]] + rest[1..];
        ExtendLastHead([s[0]], rest, c);
      }
    }
  }

  /** Appending a character to the last field appends it to the joined line. */
  lemma {:induction false} JoinExtendLast(fs: seq<string>, c: char, sep: char)
    requires |fs| >= 1
    ensures Join(ExtendLast(fs, c), sep) == Join(fs, sep) + [c]
    decreases |fs|
  {
    if |fs| > 1 {
      var ext := ExtendLast(fs, c);
      assert ext[0] == fs[0] && ext[1..] == ExtendLast(fs[1..], c);
      JoinExtendLast(fs[1..], c, sep);
    }
  }

  /** Joining two non-empty field lists puts one separator between them. */
  lemma {:induction false} JoinAppend(a: seq<string>, b: seq<string>, sep: char)
    requires |a| >= 1 && |b| >= 1
    ensures Join(a + b, sep) == Join(a, sep) + [sep] + Join(b, sep)
    decreases |a|
  {
    var ab := a + b;
    assert ab[0] == a[0];
    if |a| == 1 {
      assert ab[1..] == b;
    } else {
      assert ab[1..] == a[1..] + b;
      JoinAppend(a[1..], b, sep);
    }
  }

  // ----------------------------------------------------------- readlines/write

  lemma ConcatCons(l: string, chunks: seq<string>)
    ensures Concat([l] + chunks) == l + Concat(chunks)
  {
    assert ([l] + chunks)[1..] == chunks;
  }

  /** One more line in front of well-formed lines keeps them well formed when
      it is a line that ends with a newline, or there is nothing after it. */
  lemma WellFormedCons(l: string, ls: seq<string>)
    requires IsLine(l) && WellFormedLines(ls)
    requires ls != [] ==> EndsWithNewline(l)
    ensures WellFormedLines([l] + ls)
  {
    var all := [l] + ls;
    forall j | 0 <= j < |all| ensures IsLine(all[j]) && (j < |all| - 1 ==> EndsWithNewline(all[j])) {
      if j > 0 { assert all[j] == ls[j - 1]; }
    }
  }

  lemma ReadLinesStepNewline(t: string)
    requires t != [] && t[0] == Newline
    requires Concat(ReadLines(t[1..])) == t[1..]
    ensures Concat(ReadLines(t)) == t
  {
    assert ReadLines(t) == [[t[0]]] + ReadLines(t[1..]);
    ConcatCons([t[0]], ReadLines(t[1..]));
    assert [t[0]] + t[1..] == t;
  }

  lemma ReadLinesStepLast(t: string)
    requires t != [] && t[0] != Newline && ReadLines(t[1..]) == []
    ensures Concat(ReadLines(t)) == t
  {
    assert t[1..] == [];
    assert ReadLines(t) == [[t[0]]];
    ConcatOne([t[0]]);
    assert [t[0]] == t;
  }

  /** Gluing a character to the front of the first chunk puts it at the front
      of the text. */
  lemma ConcatGlue(c: char, chunks: seq<string>)
    requires chunks != []
    ensures Concat([[c] + chunks[0]] + chunks[1..]) == [c] + Concat(chunks)
  {
    ConcatCons([c] + chunks[0], chunks[1..]);
    ConcatCons(chunks[0], chunks[1..]);
    assert [chunks[0]] + chunks[1..] == chunks;
    ConsAssoc(c, chunks[0], Concat(chunks[1..]));
  }

  lemma ConsAssoc(c: char, a: string, x: string)
    ensures ([c] + a) + x == [c] + (a + x)
  {
  }

  lemma ReadLinesStepInner(t: string)
    requires t != [] && t[0] != Newline && ReadLines(t[1..]) != []
    requires Concat(ReadLines(t[1..])) == t[1..]
    ensures Concat(ReadLines(t)) == t
  {
    var rest := ReadLines(t[1..]);
    assert ReadLines(t) == [[t[0]] + rest[0]] + rest[1..];
    ConcatGlue(t[0], rest);
    assert [t[0]] + t[1..] == t;
  }

  /** Writing back the lines that `readlines` returned reproduces the file. */
  lemma {:induction false} ConcatReadLines(t: string)
    ensures Concat(ReadLines(t)) == t
    decreases |t|
  {
    if t != [] {
      ConcatReadLines(t[1..]);
      if t[0] == Newline {
        ReadLinesStepNewline(t);
      } else if ReadLines(t[1..]) == [] {
        ReadLinesStepLast(t);
      } else {
        ReadLinesStepInner(t);
      }
    }
  }

  /** `readlines` on a text that starts with one whole newline-terminated line. */
  lemma {:induction false} ReadLinesFirstLine(l: string, rest: string)
    requires IsLine(l) && EndsWithNewline(l)
    ensures ReadLines(l + rest) == [l] + ReadLines(rest)
    decreases |l|
  {
    if |l| == 1 {
      assert l == [Newline];
      assert (l + rest)[1..] == rest;
    } else {
      var t := l + rest;
      assert t[0] == l[0] && l[0] != Newline by { assert l[0] == l[..|l| - 1][0]; }
      assert t[1..] == l[1..] + rest;
      assert IsLine(l[1..]) by { assert l[1..][..|l| - 2] == l[..|l| - 1][1..]; }
      ReadLinesFirstLine(l[1..], rest);
      assert [l[0]] + l[1..] == l;
    }
  }

  /** A text of two lines, the first ending with a newline, is read as those two. */
  lemma ReadLinesTwo(a: string, b: string)
    requires IsLine(a) && EndsWithNewline(a) && IsLine(b)
    ensures ReadLines(a + b) == [a, b]
  {
    ReadLinesFirstLine(a, b);
    LastLine(b);
  }

  /** A line without a newline followed by a line is still one line. */
  lemma LineGlue(a: string, b: string)
    requires IsLine(a) && !EndsWithNewline(a) && IsLine(b)
    ensures IsLine(a + b)
  {
    assert Newline !in a;
    assert (a + b)[..|a + b| - 1] == a + b[..|b| - 1];
  }

  /** A text made of a line, then a piece without a newline, then a line,
      reads back as two lines: the piece is glued to the line after it. */
  lemma ReadLinesGlued(a: string, t: string, b: string)
    requires IsLine(a) && EndsWithNewline(a)
    requires IsLine(t) && !EndsWithNewline(t) && IsLine(b)
    ensures ReadLines(a + t + b) == [a, t + b]
  {
    LineGlue(t, b);
    assert a + t + b == a + (t + b);
    ReadLinesTwo(a, t + b);
  }

  lemma ConcatOne(l: string)
    ensures Concat([l]) == l
  {
    ConcatCons(l, []);
    assert l + [] == l;
  }

  lemma ConcatTwo(a: string, b: string)
    ensures Concat([a, b]) == a + b
  {
    ConcatCons(a, [b]);
    ConcatOne(b);
  }

  /** Cutting the concatenation of well-formed lines gives those lines back. */
  lemma {:induction false} ReadLinesConcat(ls: seq<string>)
    requires WellFormedLines(ls)
    ensures ReadLines(Concat(ls)) == ls
    decreases |ls|
  {
    if ls != [] {
      ConcatCons(ls[0], ls[1..]);
      assert ls == [ls[0]] + ls[1..];
      assert WellFormedLines(ls[1..]) by {
        forall j | 0 <= j < |ls| - 1 ensures ls[1..][j] == ls[j + 1] { }
      }
      ReadLinesConcat(ls[1..]);
      if |ls| == 1 {
        var l := ls[0];
        assert Concat(ls) == l;
        LastLine(l);
      } else {
        ReadLinesFirstLine(ls[0], Concat(ls[1..]));
      }
    }
  }

  /** A line on its own is read back as itself. */
  lemma {:induction false} LastLine(l: string)
    requires IsLine(l)
    ensures ReadLines(l) == [l]
    decreases |l|
  {
    if |l| == 1 {
      assert l[1..] == [] && [l[0]] == l;
    } else {
      assert l[0] != Newline by { assert l[0] == l[..|l| - 1][0]; }
      assert IsLine(l[1..]) by { assert l[1..][..|l| - 2] == l[..|l| - 1][1..]; }
      LastLine(l[1..]);
      assert [l[0]] + l[1..] == l;
    }
  }
}
