/** `FormFileExtensions.ParseContentDisposition`: scrapes the model name and
    the file name out of the `Content-Disposition` header of an uploaded form
    part, for example `form-data; name="upload"; filename="a.txt"`.

    The header is taken as a plain string (the `ContentDisposition` property
    of the form file). The model name is the text after the first
    case-insensitive `name=` up to the next `;`; the file name is all the text
    after the first case-insensitive `filename=`; both lose every `"`. No
    quoted-string or escape rules apply. */
module FormFileExtensions {
  import opened Strings

  const NameToken: string := "name="
  const FileNameToken: string := "filename="
  const Quote: char := '"'
  const Separator: char := ';'

  /** The model-name block: the text after the first `name=` up to the
      next `;`, unquoted; empty when there is no `name=`; the failure of
      `Substring(0, -1)` when no `;` follows. */
  function ModelNameOf(contentDisposition: string): (r: Result<string>)
    ensures r.Ok? ==> Quote !in r.value
  {
    var index := IndexOfIgnoreCase(contentDisposition, NameToken);
    if index >= 0 then
      match SubstringFrom(contentDisposition, index + |NameToken|)
      case Err(e) => Err(e)
      case Ok(temp) =>
        match Substring(temp, 0, IndexOfChar(temp, Separator))
        case Err(e) => Err(e)
        case Ok(value) => Ok(RemoveAll(value, Quote))
    else Ok("")
  }

  /** The file-name block: everything after the first `filename=`,
      unquoted; empty when there is no `filename=`. */
  function FileNameOf(contentDisposition: string): (r: Result<string>)
    ensures r.Ok? && Quote !in r.value
  {
    var index := IndexOfIgnoreCase(contentDisposition, FileNameToken);
    if index >= 0 then
      match SubstringFrom(contentDisposition, index + |FileNameToken|)
      case Err(e) => Err(e)
      case Ok(rest) => Ok(RemoveAll(rest, Quote))
    else Ok("")
  }

  /** The (model name, file name) pair, or the `ArgumentOutOfRange` failure
      of `Substring(0, -1)` when `name=` is found but no `;` follows it.
      The model-name block runs first, so its failure is the call's. */
  function ParseContentDisposition(contentDisposition: string): (r: Result<(string, string)>)
    ensures r.Ok? ==> Quote !in r.value.0 && Quote !in r.value.1
  {
    match ModelNameOf(contentDisposition)
    case Err(e) => Err(e)
    case Ok(modelName) =>
      match FileNameOf(contentDisposition)
      case Err(e) => Err(e)
      case Ok(filename) => Ok((modelName, filename))
  }

  /** `i` is where the first `;` after position `from` of `s` stands. */
  ghost predicate IsFirstSeparatorAfter(s: string, from: nat, i: int)
  {
    from <= i < |s| && s[i] == Separator && Separator !in s[from..i]
  }

  /** Every `filename=` contains a `name=` four characters in. */
  lemma NameInsideFileName(s: string, j: int)
    requires OccursAt(s, FileNameToken, j)
    ensures OccursAt(s, NameToken, j + 4)
  {
    forall k | 0 <= k < |NameToken|
      ensures FoldCase(s[j + 4 + k]) == FoldCase(NameToken[k])
    {
      assert FoldCase(s[j + (4 + k)]) == FoldCase(FileNameToken[4 + k]);
    }
  }

  /** A header without `name=` (hence without `filename=`) yields two empty strings. */
  lemma NoNameGivesEmptyPair(cd: string)
    requires NoOccurrence(cd, NameToken)
    ensures ParseContentDisposition(cd) == Ok(("", ""))
  {
    var j := IndexOfIgnoreCase(cd, FileNameToken);
    if j >= 0 {
      NameInsideFileName(cd, j);
      assert false;
    }
  }

  /** Without `filename=` the file name is empty. */
  lemma NoFileNameGivesEmptyFileName(cd: string)
    requires NoOccurrence(cd, FileNameToken)
    ensures ParseContentDisposition(cd).Ok? ==> ParseContentDisposition(cd).value.1 == ""
  {
  }

  /** The call fails exactly when `name=` is found and no `;` follows it. */
  lemma FailsIffNoSeparatorAfterName(cd: string, i: int)
    requires IsFirstOccurrence(cd, NameToken, i)
    ensures ParseContentDisposition(cd).Err? <==> Separator !in cd[i + |NameToken|..]
    ensures ParseContentDisposition(cd).Err? ==> ParseContentDisposition(cd).error == ArgumentOutOfRange
  {
    IndexOfIgnoreCaseExact(cd, NameToken, i);
    var temp := cd[i + |NameToken|..];
    assert SubstringFrom(cd, i + |NameToken|) == Ok(temp);
  }

  /** The call's result, in terms of its two blocks. */
  lemma ParseOfBlocks(cd: string)
    ensures ModelNameOf(cd).Err? ==> ParseContentDisposition(cd) == Err(ModelNameOf(cd).error)
    ensures ModelNameOf(cd).Ok? ==> ParseContentDisposition(cd) == Ok((ModelNameOf(cd).value, FileNameOf(cd).value))
  {
  }

  /** The model-name block, with `name=` first at `i` and the next `;` at `k`. */
  lemma ModelNameBlockAt(cd: string, i: int, k: int)
    requires IsFirstOccurrence(cd, NameToken, i)
    requires IsFirstSeparatorAfter(cd, i + |NameToken|, k)
    ensures ModelNameOf(cd) == Ok(RemoveAll(cd[i + |NameToken|..k], Quote))
  {
    IndexOfIgnoreCaseExact(cd, NameToken, i);
    var start := i + |NameToken|;
    var temp := cd[start..];
    assert SubstringFrom(cd, start) == Ok(temp);
    assert temp[k - start] == Separator;
    assert temp[..k - start] == cd[start..k];
    IndexOfCharExact(temp, Separator, k - start);
    assert Substring(temp, 0, k - start) == Ok(cd[start..k]);
  }

  /** The file-name block, with `filename=` first at `j`. */
  lemma FileNameBlockAt(cd: string, j: int)
    requires IsFirstOccurrence(cd, FileNameToken, j)
    ensures FileNameOf(cd) == Ok(RemoveAll(cd[j + |FileNameToken|..], Quote))
  {
    IndexOfIgnoreCaseExact(cd, FileNameToken, j);
    assert SubstringFrom(cd, j + |FileNameToken|) == Ok(cd[j + |FileNameToken|..]);
  }

  /** With `name=` first at `i` and the next `;` at `k`, the model name is the
      text strictly between them without its quotes, and no longer than it. */
  lemma ModelNameBetweenNameAndSeparator(cd: string, i: int, k: int)
    requires IsFirstOccurrence(cd, NameToken, i)
    requires IsFirstSeparatorAfter(cd, i + |NameToken|, k)
    ensures ParseContentDisposition(cd).Ok?
    ensures ParseContentDisposition(cd).value.0 == RemoveAll(cd[i + |NameToken|..k], Quote)
    ensures |ParseContentDisposition(cd).value.0| <= k - (i + |NameToken|)
  {
    ModelNameBlockAt(cd, i, k);
    ParseOfBlocks(cd);
  }

  /** With `filename=` first at `j`, the file name (when the call succeeds) is
      everything after it without its quotes, and no longer than that suffix. */
  lemma FileNameAfterFileNameToken(cd: string, j: int)
    requires IsFirstOccurrence(cd, FileNameToken, j)
    ensures ParseContentDisposition(cd).Ok? ==>
      ParseContentDisposition(cd).value.1 == RemoveAll(cd[j + |FileNameToken|..], Quote)
    ensures ParseContentDisposition(cd).Ok? ==>
      |ParseContentDisposition(cd).value.1| <= |cd| - (j + |FileNameToken|)
  {
    FileNameBlockAt(cd, j);
    ParseOfBlocks(cd);
  }

  /** Whenever `filename=` is found at `j`, the `name=` search succeeds too,
      at an index no greater than `j + 4`. */
  lemma FileNameFoundImpliesNameFound(cd: string, j: int)
    requires IsFirstOccurrence(cd, FileNameToken, j)
    ensures 0 <= IndexOfIgnoreCase(cd, NameToken) <= j + 4
  {
    NameInsideFileName(cd, j);
  }

  /** The first `;` of a suffix, found by `IndexOfChar`, is the first `;` after
      the suffix's start in the whole string. */
  lemma FirstSeparatorInSuffix(s: string, from: nat) returns (k: nat)
    requires from <= |s| && Separator in s[from..]
    ensures IsFirstSeparatorAfter(s, from, from + k)
    ensures s[from..from + k] == s[from..][..k]
  {
    k := IndexOfChar(s[from..], Separator);
    assert s[from..from + k] == s[from..][..k];
  }

  /** The two blocks when the `name=` search lands inside the first
      `filename=` and a `;` follows it: the model name is a prefix of the
      file name. */
  lemma BlocksInsideFileName(cd: string, j: int) returns (modelName: string, fileName: string)
    requires IsFirstOccurrence(cd, FileNameToken, j)
    requires IsFirstOccurrence(cd, NameToken, j + 4)
    requires Separator in cd[j + |FileNameToken|..]
    ensures ModelNameOf(cd) == Ok(modelName) && FileNameOf(cd) == Ok(fileName)
    ensures modelName <= fileName
  {
    var start := j + |FileNameToken|;
    var rest := cd[start..];
    var k := FirstSeparatorInSuffix(cd, start);
    ModelNameBlockAt(cd, j + 4, start + k);
    FileNameBlockAt(cd, j);
    RemoveAllPrefix(rest, k, Quote);
    modelName, fileName := RemoveAll(cd[start..start + k], Quote), RemoveAll(rest, Quote);
  }

  /** A model-name block that is a prefix of the file-name block makes a
      successful call whose model name is a prefix of its file name. */
  lemma PrefixOfBlocks(cd: string, modelName: string, fileName: string)
    requires ModelNameOf(cd) == Ok(modelName) && FileNameOf(cd) == Ok(fileName)
    requires modelName <= fileName
    ensures ParseContentDisposition(cd).Ok?
    ensures ParseContentDisposition(cd).value.0 <= ParseContentDisposition(cd).value.1
  {
  }

  /** When the `name=` search lands inside the first `filename=` and a `;`
      follows it, the model name is a prefix of the file name. */
  lemma ModelNamePrefixOfFileName(cd: string, j: int)
    requires IsFirstOccurrence(cd, FileNameToken, j)
    requires IsFirstOccurrence(cd, NameToken, j + 4)
    requires Separator in cd[j + |FileNameToken|..]
    ensures ParseContentDisposition(cd).Ok?
    ensures ParseContentDisposition(cd).value.0 <= ParseContentDisposition(cd).value.1
  {
    var modelName, fileName := BlocksInsideFileName(cd, j);
    PrefixOfBlocks(cd, modelName, fileName);
  }

  /** When `filename=` comes before every other `name=`, the model name is read
      out of the file-name parameter: the call succeeds exactly when a `;`
      follows, and the model name is then a prefix of the file name. */
  lemma ModelNameFromFileNameParameter(cd: string, j: int)
    requires IsFirstOccurrence(cd, FileNameToken, j)
    requires forall i :: 0 <= i < j + 4 ==> !OccursAt(cd, NameToken, i)
    ensures IndexOfIgnoreCase(cd, NameToken) == j + 4
    ensures ParseContentDisposition(cd).Err? <==> Separator !in cd[j + |FileNameToken|..]
    ensures ParseContentDisposition(cd).Ok? ==>
      ParseContentDisposition(cd).value.0 <= ParseContentDisposition(cd).value.1
  {
    NameInsideFileName(cd, j);
    assert IsFirstOccurrence(cd, NameToken, j + 4);
    IndexOfIgnoreCaseExact(cd, NameToken, j + 4);
    FailsIffNoSeparatorAfterName(cd, j + 4);
    if Separator in cd[j + |FileNameToken|..] {
      ModelNamePrefixOfFileName(cd, j);
    }
  }

  /** The file name depends only on the text from the first `filename=` on:
      two headers that differ only before it (say, in their `name=`
      parameter) get the same file name, whatever their model names. */
  lemma FileNameIndependentOfPrefix(p1: string, p2: string, tail: string)
    requires IsFirstOccurrence(p1 + tail, FileNameToken, |p1|)
    requires IsFirstOccurrence(p2 + tail, FileNameToken, |p2|)
    ensures FileNameOf(p1 + tail) == FileNameOf(p2 + tail)
    ensures ParseContentDisposition(p1 + tail).Ok? && ParseContentDisposition(p2 + tail).Ok? ==>
      ParseContentDisposition(p1 + tail).value.1 == ParseContentDisposition(p2 + tail).value.1
  {
    FileNameBlockAt(p1 + tail, |p1|);
    FileNameBlockAt(p2 + tail, |p2|);
    SuffixOfAppend(p1, tail, |FileNameToken|);
    SuffixOfAppend(p2, tail, |FileNameToken|);
    ParseOfBlocks(p1 + tail);
    ParseOfBlocks(p2 + tail);
  }

  /** A suffix that starts inside the second part of a concatenation is a suffix of that part. */
  lemma SuffixOfAppend(p: string, t: string, n: nat)
    requires n <= |t|
    ensures (p + t)[|p| + n..] == t[n..]
  {
    assert forall k :: 0 <= k < |t| - n ==> (p + t)[|p| + n..][k] == t[n..][k];
  }

  /** A position where some character already differs from `pat` is no occurrence. */
  lemma CharMismatch(s: string, pat: string, j: int, m: int)
    requires 0 <= m < |pat| && 0 <= j && j + m < |s| && FoldCase(s[j + m]) != FoldCase(pat[m])
    ensures !OccursAt(s, pat, j)
  {
  }

  /** An occurrence lying inside a copy of `t` within `s` is an occurrence in `t`. */
  lemma OccursWithin(s: string, t: string, o: int, pat: string, j: int)
    requires 0 <= o && o + |t| <= |s| && s[o..o + |t|] == t
    requires o <= j && j + |pat| <= o + |t|
    requires OccursAt(s, pat, j)
    ensures OccursAt(t, pat, j - o)
  {
    forall k | 0 <= k < |pat| ensures FoldCase(t[j - o + k]) == FoldCase(pat[k]) {
      assert t[j - o + k] == s[o..o + |t|][j - o + k] == s[j + k];
    }
  }

  /** The header a browser sends for a file part:
      `form-data; name="<modelName>"; filename="<fileName>"`. */
  function FileFormDataHeader(modelName: string, fileName: string): (h: string)
    ensures |h| == 31 + |modelName| + |fileName|
  {
    ("form-data; " + NameToken) + ([Quote] + modelName + [Quote]) + ("; " + FileNameToken) + ([Quote] + fileName + [Quote])
  }

  /** Where each piece of `FileFormDataHeader` stands. */
  lemma FileFormDataHeaderLayout(m: string, f: string)
    ensures var h := FileFormDataHeader(m, f);
      && h[..16] == "form-data; name="
      && h[16..18 + |m|] == [Quote] + m + [Quote]
      && h[17..17 + |m|] == m
      && h[18 + |m|..29 + |m|] == "; filename="
      && h[29 + |m|..] == [Quote] + f + [Quote]
  {
    var h := FileFormDataHeader(m, f);
    var a, qm, b, c, d := "form-data; " + NameToken, [Quote] + m, [Quote] + m + [Quote], "; " + FileNameToken, [Quote] + f + [Quote];
    var ab, abc := a + b, a + b + c;
    assert h == abc + d;
    assert |a| == 16 && |b| == 2 + |m| && |c| == 11;
    SliceLeft(abc, d, 0, 16);
    SliceLeft(ab, c, 0, 16);
    SliceLeft(a, b, 0, 16);
    SliceLeft(abc, d, 16, 18 + |m|);
    SliceLeft(ab, c, 16, 18 + |m|);
    SliceRight(a, b, 16, 18 + |m|);
    SliceLeft(abc, d, 17, 17 + |m|);
    SliceLeft(ab, c, 17, 17 + |m|);
    SliceRight(a, b, 17, 17 + |m|);
    SliceLeft(qm, [Quote], 1, 1 + |m|);
    SliceRight([Quote], m, 1, 1 + |m|);
    SliceLeft(abc, d, 18 + |m|, 29 + |m|);
    SliceRight(ab, c, 18 + |m|, 29 + |m|);
    SliceRight(abc, d, 29 + |m|, |h|);
  }

  /** A slice lying inside the first part of a concatenation is a slice of that part. */
  lemma SliceLeft(x: string, y: string, i: int, j: int)
    requires 0 <= i <= j <= |x|
    ensures (x + y)[i..j] == x[i..j]
  {
    assert forall k :: i <= k < j ==> (x + y)[k] == x[k];
  }

  /** A slice lying inside the second part of a concatenation is a slice of that part. */
  lemma SliceRight(x: string, y: string, i: int, j: int)
    requires |x| <= i <= j <= |x| + |y|
    ensures (x + y)[i..j] == y[i - |x|..j - |x|]
  {
    assert forall k :: i <= k < j ==> (x + y)[k] == y[k - |x|];
  }

  /** In a browser header `name=` first occurs right after `form-data; `. */
  lemma FileFormDataHeaderNameAt(m: string, f: string)
    ensures IsFirstOccurrence(FileFormDataHeader(m, f), NameToken, 11)
  {
    var h := FileFormDataHeader(m, f);
    FileFormDataHeaderLayout(m, f);
    forall j | 0 <= j < 11 ensures !OccursAt(h, NameToken, j) {
      assert h[j] == h[..16][j];
      CharMismatch(h, NameToken, j, 0);
    }
    forall k | 0 <= k < |NameToken| ensures FoldCase(h[11 + k]) == FoldCase(NameToken[k]) {
      assert h[11 + k] == h[..16][11 + k];
    }
  }

  /** No `filename=` starts in `form-data; name="` of a browser header. */
  lemma NoFileNameInHeaderStart(m: string, f: string, j: int)
    requires 0 <= j <= 16
    ensures !OccursAt(FileFormDataHeader(m, f), FileNameToken, j)
  {
    var h := FileFormDataHeader(m, f);
    FileFormDataHeaderLayout(m, f);
    if j < 16 {
      var k := if j == 0 then 1 else 0;
      assert h[j + k] == h[..16][j + k];
      CharMismatch(h, FileNameToken, j, k);
    } else {
      assert h[16] == h[16..18 + |m|][0];
      CharMismatch(h, FileNameToken, j, 0);
    }
  }

  /** No `filename=` starts inside a quoted model name that holds no quote
      and no `filename=`. */
  lemma NoFileNameInQuotedModelName(m: string, f: string, j: int)
    requires Quote !in m && NoOccurrence(m, FileNameToken)
    requires 17 <= j <= 17 + |m|
    ensures !OccursAt(FileFormDataHeader(m, f), FileNameToken, j)
  {
    var h := FileFormDataHeader(m, f);
    FileFormDataHeaderLayout(m, f);
    var q := 17 + |m|;
    assert h[q] == Quote by { assert h[q] == h[16..18 + |m|][1 + |m|]; }
    if j + |FileNameToken| <= q {
      if OccursAt(h, FileNameToken, j) {
        OccursWithin(h, m, 17, FileNameToken, j);
      }
    } else {
      CharMismatch(h, FileNameToken, j, q - j);
    }
  }

  /** No `filename=` starts in the `; ` after the quoted model name. */
  lemma NoFileNameInSeparator(m: string, f: string, j: int)
    requires 18 + |m| <= j < 20 + |m|
    ensures !OccursAt(FileFormDataHeader(m, f), FileNameToken, j)
  {
    var h := FileFormDataHeader(m, f);
    FileFormDataHeaderLayout(m, f);
    assert h[j] == h[18 + |m|..29 + |m|][j - (18 + |m|)];
    CharMismatch(h, FileNameToken, j, 0);
  }

  /** In a browser header whose model name holds no quote and no `filename=`,
      `filename=` first occurs right after `"<modelName>"; `. */
  lemma FileFormDataHeaderFileNameAt(m: string, f: string)
    requires Quote !in m && NoOccurrence(m, FileNameToken)
    ensures IsFirstOccurrence(FileFormDataHeader(m, f), FileNameToken, 20 + |m|)
  {
    var h := FileFormDataHeader(m, f);
    FileFormDataHeaderLayout(m, f);
    forall j | 0 <= j < 20 + |m| ensures !OccursAt(h, FileNameToken, j) {
      if j <= 16 {
        NoFileNameInHeaderStart(m, f, j);
      } else if j <= 17 + |m| {
        NoFileNameInQuotedModelName(m, f, j);
      } else {
        NoFileNameInSeparator(m, f, j);
      }
    }
    forall k | 0 <= k < |FileNameToken| ensures FoldCase(h[20 + |m| + k]) == FoldCase(FileNameToken[k]) {
      assert h[20 + |m| + k] == h[18 + |m|..29 + |m|][2 + k];
    }
  }

  /** Stripping the quotes off `"v"`, where `v` holds none, gives `v`. */
  lemma UnquoteQuoted(v: string)
    requires Quote !in v
    ensures RemoveAll([Quote] + v + [Quote], Quote) == v
  {
    RemoveAllAppend([Quote] + v, [Quote], Quote);
    RemoveAllAppend([Quote], v, Quote);
    RemoveAllAbsent(v, Quote);
  }

  /** The header a browser sends is read back exactly, provided the model
      name holds no `"`, no `;` and no `filename=`, and the file name no `"`. */
  lemma ParseFileFormDataHeader(m: string, f: string)
    requires Quote !in m && Separator !in m && NoOccurrence(m, FileNameToken)
    requires Quote !in f
    ensures ParseContentDisposition(FileFormDataHeader(m, f)) == Ok((m, f))
  {
    var h := FileFormDataHeader(m, f);
    FileFormDataHeaderLayout(m, f);
    FileFormDataHeaderNameAt(m, f);
    FileFormDataHeaderFileNameAt(m, f);
    assert h[18 + |m|] == Separator by { assert h[18 + |m|] == h[18 + |m|..29 + |m|][0]; }
    assert IsFirstSeparatorAfter(h, 16, 18 + |m|);
    ModelNameBlockAt(h, 11, 18 + |m|);
    FileNameBlockAt(h, 20 + |m|);
    ParseOfBlocks(h);
    UnquoteQuoted(m);
    UnquoteQuoted(f);
  }
}
