/** Output naming (main.go:113-138, 477-481): the pure string and path
    helpers that place each segment video, on a path model of directory
    components plus a base name. */
module Naming {

  /** A path: its directory, as components, and its base name. `Dir` of the
      program is `dir`, `Base` is `base`, and `filepath.Join(Dir(p), n)`
      is `FilePath(p.dir, n)`. */
  datatype FilePath = FilePath(dir: seq<string>, base: string)

  /** `filepath.Ext` of a base name: the suffix from its last '.', or the
      empty string when it has none. */
  function Ext(name: string): string
  {
    if |name| == 0 then ""
    else if name[|name| - 1] == '.' then "."
    else
      var e := Ext(name[..|name| - 1]);
      if e == "" then "" else e + [name[|name| - 1]]
  }

  /** The extension is a suffix of the name; it is empty exactly when the
      name has no '.', and otherwise it starts with the name's last '.'. */
  lemma {:induction false} ExtShape(name: string)
    ensures |Ext(name)| <= |name| && name[|name| - |Ext(name)|..] == Ext(name)
    ensures Ext(name) == "" <==> '.' !in name
    ensures Ext(name) != "" ==> Ext(name)[0] == '.' && '.' !in Ext(name)[1..]
  {
    if |name| > 0 && name[|name| - 1] != '.' {
      var init, c := name[..|name| - 1], name[|name| - 1];
      assert name == init + [c];
      ExtSnoc(init, c);
      ExtShape(init);
      var e := Ext(init);
      if e != "" {
        assert (e + [c])[1..] == e[1..] + [c];
        assert name[|name| - |e| - 1..] == init[|init| - |e|..] + [c];
      }
    }
  }

  /** `strings.TrimSuffix`. */
  function TrimSuffix(s: string, suffix: string): (r: string)
    ensures |suffix| <= |s| && s[|s| - |suffix|..] == suffix ==> r + suffix == s
    ensures !(|suffix| <= |s| && s[|s| - |suffix|..] == suffix) ==> r == s
  {
    if |suffix| <= |s| && s[|s| - |suffix|..] == suffix then s[..|s| - |suffix|] else s
  }

  /** The name without its extension, as the three helpers compute it. */
  function Stem(name: string): (r: string)
    ensures r + Ext(name) == name
  {
    ExtShape(name);
    TrimSuffix(name, Ext(name))
  }

  function DigitChar(d: nat): (c: char)
    requires d < 10
    ensures '0' <= c <= '9'
  {
    (48 + d) as char
  }

  /** Decimal digits of a natural number, most significant first. */
  function Digits(n: nat): (s: string)
    ensures |s| > 0
    ensures n >= 10 ==> |s| >= 2
    ensures forall i :: 0 <= i < |s| ==> '0' <= s[i] <= '9'
  {
    if n < 10 then [DigitChar(n)] else Digits(n / 10) + [DigitChar(n % 10)]
  }

  /** `%d` formatting of an int. */
  function Itoa(n: int): (s: string)
    ensures |s| > 0
    ensures forall i :: 0 <= i < |s| ==> s[i] == '-' || '0' <= s[i] <= '9'
  {
    if n < 0 then "-" + Digits(-n) else Digits(n)
  }

  lemma {:induction false} DigitsInjective(a: nat, b: nat)
    requires Digits(a) == Digits(b)
    ensures a == b
  {
    if a >= 10 && b >= 10 {
      var da, db := Digits(a), Digits(b);
      assert da[|da| - 1] == DigitChar(a % 10) && db[|db| - 1] == DigitChar(b % 10);
      assert Digits(a / 10) == da[..|da| - 1] == db[..|db| - 1] == Digits(b / 10);
      DigitsInjective(a / 10, b / 10);
    } else if a < 10 && b < 10 {
      assert Digits(a)[0] == DigitChar(a);
    }
  }

  /** Distinct numbers are formatted differently. */
  lemma ItoaInjective(a: int, b: int)
    requires Itoa(a) == Itoa(b)
    ensures a == b
  {
    if a < 0 && b < 0 {
      assert Digits(-a) == Itoa(a)[1..] == Itoa(b)[1..] == Digits(-b);
      DigitsInjective(-a, -b);
    } else if a >= 0 && b >= 0 {
      DigitsInjective(a, b);
    } else {
      ItoaSign(a);
      ItoaSign(b);
      assert false;
    }
  }

  lemma ItoaSign(n: int)
    ensures Itoa(n)[0] == '-' <==> n < 0
  {
  }

  /** `Ext` of a name with one more character at its end. */
  lemma ExtSnoc(init: string, c: char)
    ensures Ext(init + [c]) == if c == '.' then "." else if Ext(init) == "" then "" else Ext(init) + [c]
  {
    assert (init + [c])[..|init|] == init;
  }

  /** The step of `ExtOfAppend`: one more character at the end of b. */
  lemma ExtOfAppendSnoc(a: string, b: string, c: char)
    requires Ext(a + b) == if '.' in b then Ext(b) else if '.' in a then Ext(a) + b else ""
    ensures Ext(a + (b + [c])) == if '.' in b + [c] then Ext(b + [c]) else if '.' in a then Ext(a) + (b + [c]) else ""
  {
    var bc := b + [c];
    assert a + bc == (a + b) + [c];
    ExtSnoc(a + b, c);
    ExtSnoc(b, c);
    if c == '.' {
      assert bc[|b|] == '.';
    } else if '.' in b {
      assert '.' in bc;
      ExtShape(b);
    } else if '.' in a {
      assert '.' !in bc;
      ExtShape(a);
      assert (Ext(a) + b) + [c] == Ext(a) + bc;
    } else {
      assert '.' !in bc;
    }
  }

  /** How `Ext` sees a name built by appending b to a. */
  lemma {:induction false} ExtOfAppend(a: string, b: string)
    ensures Ext(a + b) == if '.' in b then Ext(b) else if '.' in a then Ext(a) + b else ""
  {
    if b == [] {
      ExtShape(a);
      assert a + b == a;
    } else {
      var b' := b[..|b| - 1];
      assert b == b' + [b[|b| - 1]];
      ExtOfAppend(a, b');
      ExtOfAppendSnoc(a, b', b[|b| - 1]);
    }
  }

  /** An extension is its own extension. */
  lemma ExtIdempotent(name: string)
    ensures Ext(Ext(name)) == Ext(name)
  {
    var e := Ext(name);
    ExtShape(name);
    if e != "" {
      assert e == "." + e[1..];
      ExtOfAppend(".", e[1..]);
    }
  }

  /** `AddIndexToFileName` (main.go:113-120). */
  function AddIndexToFileName(path: FilePath, index: int): FilePath
  {
    var filename := path.base;
    var extension := Ext(filename);
    var name := TrimSuffix(filename, extension);
    FilePath(path.dir, name + "_" + Itoa(index) + extension)
  }

  /** `AddTagToFileName` (main.go:122-129), the pattern shown to the user. */
  function AddTagToFileName(path: FilePath): FilePath
  {
    var filename := path.base;
    var extension := Ext(filename);
    var name := TrimSuffix(filename, extension);
    FilePath(path.dir, name + "_{index}" + extension)
  }

  /** `strings.ReplaceAll(s, ".", "_")`. */
  function ReplaceDots(s: string): (r: string)
    ensures |r| == |s|
    ensures forall i :: 0 <= i < |s| ==> r[i] == if s[i] == '.' then '_' else s[i]
  {
    if s == [] then [] else [if s[0] == '.' then '_' else s[0]] + ReplaceDots(s[1..])
  }

  /** `AddOutputToFileName` (main.go:131-138). */
  function AddOutputToFileName(path: FilePath): FilePath
  {
    var filename := path.base;
    var extension := Ext(filename);
    var name := TrimSuffix(filename, extension);
    FilePath(path.dir + ["output_" + name + ReplaceDots(extension)], name + ".mp4")
  }

  /** Appending an extension to a prefix gives a name whose extension is
      that extension and whose stem is the prefix, provided the prefix has
      no '.' when the extension is empty. */
  lemma AppendExt(prefix: string, ext: string)
    requires ext == Ext(ext)
    requires ext == "" ==> '.' !in prefix
    ensures Ext(prefix + ext) == ext
    ensures Stem(prefix + ext) == prefix
  {
    ExtShape(ext);
    ExtOfAppend(prefix, ext);
    if ext == "" {
      assert prefix + ext == prefix;
    }
    assert (prefix + ext)[..|prefix + ext| - |ext|] == prefix;
  }

  lemma ItoaHasNoDot(n: int)
    ensures '.' !in Itoa(n)
  {
    var s := Itoa(n);
    assert forall i :: 0 <= i < |s| ==> s[i] != '.';
  }

  /** `AddIndexToFileName(p, k)` keeps p's directory and extension and
      inserts `_<k>` between the stem and the extension. */
  lemma AddIndexKeepsDirAndExt(path: FilePath, index: int)
    ensures AddIndexToFileName(path, index).dir == path.dir
    ensures Ext(AddIndexToFileName(path, index).base) == Ext(path.base)
    ensures Stem(AddIndexToFileName(path, index).base) == Stem(path.base) + "_" + Itoa(index)
  {
    var ext := Ext(path.base);
    var prefix := Stem(path.base) + "_" + Itoa(index);
    ExtIdempotent(path.base);
    ExtShape(path.base);
    ItoaHasNoDot(index);
    if ext == "" {
      assert Stem(path.base) == path.base;
      assert '.' !in "_";
    }
    AppendExt(prefix, ext);
  }

  /** `AddTagToFileName(p)` keeps p's directory and extension and inserts
      `_{index}` between the stem and the extension. */
  lemma AddTagKeepsDirAndExt(path: FilePath)
    ensures AddTagToFileName(path).dir == path.dir
    ensures Ext(AddTagToFileName(path).base) == Ext(path.base)
    ensures Stem(AddTagToFileName(path).base) == Stem(path.base) + "_{index}"
  {
    var ext := Ext(path.base);
    var prefix := Stem(path.base) + "_{index}";
    ExtIdempotent(path.base);
    ExtShape(path.base);
    if ext == "" {
      assert Stem(path.base) == path.base;
      var tag := "_{index}";
      assert forall i :: 0 <= i < |tag| ==> tag[i] != '.';
    }
    AppendExt(prefix, ext);
  }

  lemma DropPrefix(p: string, x: string)
    ensures (p + x)[|p|..] == x
  {
  }

  /** Distinct indices give distinct file names. */
  lemma AddIndexInjective(path: FilePath, i: int, j: int)
    requires AddIndexToFileName(path, i) == AddIndexToFileName(path, j)
    ensures i == j
  {
    AddIndexKeepsDirAndExt(path, i);
    AddIndexKeepsDirAndExt(path, j);
    var p := Stem(path.base) + "_";
    var si, sj := p + Itoa(i), p + Itoa(j);
    assert si == Stem(AddIndexToFileName(path, i).base);
    assert sj == Stem(AddIndexToFileName(path, j).base);
    DropPrefix(p, Itoa(i));
    DropPrefix(p, Itoa(j));
    ItoaInjective(i, j);
  }

  lemma ExtMp4()
    ensures Ext(".mp4") == ".mp4"
  {
    assert ".mp4"[..3] == ".mp";
    assert ".mp"[..2] == ".m";
    assert ".m"[..1] == ".";
  }

  /** `AddOutputToFileName(p)` is `dir/output_<stem><ext with '.' as '_'>/<stem>.mp4`. */
  lemma AddOutputShape(path: FilePath)
    ensures AddOutputToFileName(path).dir
            == path.dir + ["output_" + Stem(path.base) + ReplaceDots(Ext(path.base))]
    ensures Ext(AddOutputToFileName(path).base) == ".mp4"
    ensures Stem(AddOutputToFileName(path).base) == Stem(path.base)
    ensures AddOutputToFileName(path).base == Stem(path.base) + ".mp4"
  {
    ExtMp4();
    AppendExt(Stem(path.base), ".mp4");
  }

  lemma NameWithDot()
    ensures Ext("a.b") == ".b" && Stem("a.b") == "a"
  {
    assert "a.b"[..2] == "a." && "a."[..1] == "a";
    assert "a.b"[..1] == "a";
  }

  lemma NameWithoutDot()
    ensures Ext("a_b") == "" && Stem("a_b") == "a_b"
  {
    assert '.' !in "a_b" by { var n := "a_b"; assert n[0] != '.' && n[1] != '.' && n[2] != '.'; }
    ExtShape("a_b");
  }

  /** Two paths of one directory whose stems followed by their rewritten
      extensions read the same share an output directory; their output
      paths differ exactly when their stems do. */
  lemma OutputDirsCollide(p: FilePath, q: FilePath)
    requires p.dir == q.dir
    requires Stem(p.base) + ReplaceDots(Ext(p.base)) == Stem(q.base) + ReplaceDots(Ext(q.base))
    ensures AddOutputToFileName(p).dir == AddOutputToFileName(q).dir
    ensures AddOutputToFileName(p) == AddOutputToFileName(q) <==> Stem(p.base) == Stem(q.base)
  {
    AddOutputShape(p);
    AddOutputShape(q);
    OutputPathsCollide(p.dir, Stem(p.base), ReplaceDots(Ext(p.base)), Stem(q.base), ReplaceDots(Ext(q.base)),
                       AddOutputToFileName(p), AddOutputToFileName(q));
  }

  /** `OutputDirsCollide` on the parts of the two output paths. */
  lemma OutputPathsCollide(dir: seq<string>, sp: string, rp: string, sq: string, rq: string, op: FilePath, oq: FilePath)
    requires op.dir == dir + ["output_" + sp + rp] && op.base == sp + ".mp4"
    requires oq.dir == dir + ["output_" + sq + rq] && oq.base == sq + ".mp4"
    requires sp + rp == sq + rq
    ensures op.dir == oq.dir
    ensures op == oq <==> sp == sq
  {
    assert "output_" + sp + rp == "output_" + (sp + rp);
    assert "output_" + sq + rq == "output_" + (sq + rq);
    if op.base == oq.base {
      assert sp == op.base[..|sp|] && sq == oq.base[..|sq|];
    }
  }

  /** Two different files of one directory can share an output directory:
      "a.b" and "a_b" both map to `output_a_b`. */
  lemma OutputDirsCanCollide()
    ensures AddOutputToFileName(FilePath([], "a.b")) != AddOutputToFileName(FilePath([], "a_b"))
    ensures AddOutputToFileName(FilePath([], "a.b")).dir == AddOutputToFileName(FilePath([], "a_b")).dir
  {
    NameWithDot();
    NameWithoutDot();
    var dot, plain := AddOutputToFileName(FilePath([], "a.b")), AddOutputToFileName(FilePath([], "a_b"));
    assert ReplaceDots(".b") == "_b" by {
      assert ".b"[1..] == "b" && "b"[1..] == "";
    }
    assert ReplaceDots("") == "";
    assert dot.dir == ["output_" + "a" + "_b"];
    assert plain.dir == ["output_" + "a_b" + ""];
    assert "output_" + "a" + "_b" == "output_" + "a_b" + "";
    assert |dot.base| != |plain.base|;
  }

  /** The path of segment `segmentsIndex` (main.go:477-481): the unindexed
      output path for a single-segment run, the indexed one otherwise. */
  function SegmentOutputPath(outputFilePath: FilePath, segmentsIndex: int, segmentsNum: int): FilePath
  {
    if segmentsIndex == 0 && segmentsNum == 1 then outputFilePath
    else AddIndexToFileName(outputFilePath, segmentsIndex)
  }

  /** A segment uses the unindexed path exactly in a single-segment run. */
  lemma SegmentPathUnindexedIffSingle(outputFilePath: FilePath, s: int, n: int)
    ensures SegmentOutputPath(outputFilePath, s, n) == outputFilePath <==> (s == 0 && n == 1)
  {
    if !(s == 0 && n == 1) {
      AddIndexKeepsDirAndExt(outputFilePath, s);
      var b := AddIndexToFileName(outputFilePath, s).base;
      assert |b| == |Stem(outputFilePath.base)| + 1 + |Itoa(s)| + |Ext(outputFilePath.base)|;
      assert |outputFilePath.base| == |Stem(outputFilePath.base)| + |Ext(outputFilePath.base)|;
    }
  }

  /** The segments of one run are written to pairwise distinct paths. */
  lemma SegmentPathsDistinct(outputFilePath: FilePath, s: nat, t: nat, n: nat)
    requires s < n && t < n && s != t
    ensures SegmentOutputPath(outputFilePath, s, n) != SegmentOutputPath(outputFilePath, t, n)
  {
    if SegmentOutputPath(outputFilePath, s, n) == SegmentOutputPath(outputFilePath, t, n) {
      AddIndexInjective(outputFilePath, s, t);
    }
  }
}
