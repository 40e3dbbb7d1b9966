# Content-disposition scraping for uploaded form files

This project models `FormFileExtensions.ParseContentDisposition` from the
model-binding layer of the MVC framework. When a form part is a file upload,
the framework reads the part's `Content-Disposition` header. An example is
`form-data; name="upload"; filename="a.txt"`. From it the method takes two
strings:

- the **model name**: the text after the first case-insensitive `name=` up to
  the next `;`, with every `"` removed;
- the **file name**: everything after the first case-insensitive `filename=`,
  with every `"` removed.

The header parameters are the `name` and `filename` parameters of a
`form-data` disposition (section 4.2 of RFC 7578). The method does not follow
that grammar. It has no quoted-string or escape handling. It matches by the
first substring occurrence, so the `name=` inside `filename=` counts as a
`name=`.

Files:

- `strings.dfy`, module `Strings`: the .NET string operations the method
  uses. These are case-insensitive `IndexOf`, ordinal `IndexOf` of one
  character, `Substring` with its range checks (an `Err(ArgumentOutOfRange)`
  result wherever .NET throws `ArgumentOutOfRangeException`), and
  `Replace("\"", "")`.
- `form_file_extensions.dfy`, module `FormFileExtensions`: the method as a
  function from the header string to `Result<(modelName, fileName)>`, and the
  properties proved about it. One of them is a round trip. For the header a
  browser sends, `form-data; name="<m>"; filename="<f>"`, the method returns
  exactly `(m, f)` under the conditions stated in the table.

The header is a parameter: it stands for the form file's `ContentDisposition`
property. Nothing is read from a stream or the network.

## Model

| member | source | states |
|---|---|---|
| `Strings.FoldCase` | src/Microsoft.AspNet.Mvc.ModelBinding/FileUpload/FormFileExtensions.cs:27 | The case folding the ignore-case search uses: an upper-case ASCII letter maps to its lower-case letter, and every other character maps to itself. |
| `Strings.IndexOfIgnoreCaseFrom` | src/Microsoft.AspNet.Mvc.ModelBinding/FileUpload/FormFileExtensions.cs:27 | Returns -1 or a position at or after `from` where the pattern occurs, with no occurrence between `from` and that position. A result of -1 means no occurrence at or after `from`. |
| `Strings.IndexOfIgnoreCase` | src/Microsoft.AspNet.Mvc.ModelBinding/FileUpload/FormFileExtensions.cs:35 | `IndexOf(pat, CurrentCultureIgnoreCase)`: returns the first case-insensitive occurrence of `pat`, or -1 exactly when `pat` occurs nowhere. |
| `Strings.IndexOfIgnoreCaseExact` | src/Microsoft.AspNet.Mvc.ModelBinding/FileUpload/FormFileExtensions.cs:27 | The search result equals `i` if and only if `i` is the first occurrence, or `i` is -1 and there is no occurrence. |
| `Strings.IndexOfChar` | src/Microsoft.AspNet.Mvc.ModelBinding/FileUpload/FormFileExtensions.cs:31 | `temp.IndexOf(";")`: returns a position holding the character with none of that character before it, or -1 exactly when the character is absent. |
| `Strings.IndexOfCharExact` | src/Microsoft.AspNet.Mvc.ModelBinding/FileUpload/FormFileExtensions.cs:31 | Any position holding the character, with none before it, is the index the search returns. |
| `Strings.Substring` | src/Microsoft.AspNet.Mvc.ModelBinding/FileUpload/FormFileExtensions.cs:31 | `Substring(start, length)` succeeds exactly when `0 <= start`, `0 <= length` and `start + length` is at most the string's length. It then yields `length` characters, the k-th being `s[start + k]`. Otherwise it fails with `ArgumentOutOfRange`. |
| `Strings.SubstringFrom` | src/Microsoft.AspNet.Mvc.ModelBinding/FileUpload/FormFileExtensions.cs:30 | `Substring(start)` succeeds exactly when `start` lies between 0 and the string's length. It then yields the suffix from `start`, character by character. |
| `Strings.RemoveAll` | src/Microsoft.AspNet.Mvc.ModelBinding/FileUpload/FormFileExtensions.cs:38 | `Replace("\"", "")`: the result holds no `c`, is no longer than the input, and keeps every other character as often as the input has it. |
| `Strings.RemoveAllAppend` | src/Microsoft.AspNet.Mvc.ModelBinding/FileUpload/FormFileExtensions.cs:31 | Removal distributes over concatenation, so the remaining characters keep their order. |
| `Strings.RemoveAllAbsent` | src/Microsoft.AspNet.Mvc.ModelBinding/FileUpload/FormFileExtensions.cs:38 | A string without `c` is unchanged. Since results hold no `c`, removal is idempotent. |
| `Strings.RemoveAllPrefix` | src/Microsoft.AspNet.Mvc.ModelBinding/FileUpload/FormFileExtensions.cs:31 | Removing from a prefix gives a prefix of removing from the whole string. |
| `FormFileExtensions.ModelNameOf` | src/Microsoft.AspNet.Mvc.ModelBinding/FileUpload/FormFileExtensions.cs:25-32 | The model-name block. On success, the model name contains no `"`. |
| `FormFileExtensions.FileNameOf` | src/Microsoft.AspNet.Mvc.ModelBinding/FileUpload/FormFileExtensions.cs:34-39 | The file-name block. It never fails, because `Substring(index + 9)` is always in range after a match. The file name contains no `"`. |
| `FormFileExtensions.ParseContentDisposition` | src/Microsoft.AspNet.Mvc.ModelBinding/FileUpload/FormFileExtensions.cs:20-42 | The method itself. The model-name block runs first and its failure is the call's failure. On success, neither the model name nor the file name contains a `"`. |
| `FormFileExtensions.NameInsideFileName` | src/Microsoft.AspNet.Mvc.ModelBinding/FileUpload/FormFileExtensions.cs:34 | Every case-insensitive `filename=` at `j` contains a `name=` at `j + 4`. |
| `FormFileExtensions.NoNameGivesEmptyPair` | src/Microsoft.AspNet.Mvc.ModelBinding/FileUpload/FormFileExtensions.cs:22-32 | With no `name=` anywhere, the call succeeds with two empty strings. There can be no `filename=` either. |
| `FormFileExtensions.NoFileNameGivesEmptyFileName` | src/Microsoft.AspNet.Mvc.ModelBinding/FileUpload/FormFileExtensions.cs:34-39 | With no `filename=`, a successful call returns an empty file name. |
| `FormFileExtensions.FailsIffNoSeparatorAfterName` | src/Microsoft.AspNet.Mvc.ModelBinding/FileUpload/FormFileExtensions.cs:31 | With `name=` first at `i`, the call fails if and only if no `;` follows position `i + 5`. The failure is `ArgumentOutOfRange`, from `Substring(0, -1)`. |
| `FormFileExtensions.ModelNameBlockAt` | src/Microsoft.AspNet.Mvc.ModelBinding/FileUpload/FormFileExtensions.cs:25-31 | With `name=` first at `i` and the first later `;` at `k`, the model-name block yields the header slice from `i + 5` to `k` with its quotes removed. |
| `FormFileExtensions.FileNameBlockAt` | src/Microsoft.AspNet.Mvc.ModelBinding/FileUpload/FormFileExtensions.cs:34-38 | With `filename=` first at `j`, the file-name block yields the suffix from `j + 9` with its quotes removed. |
| `FormFileExtensions.ModelNameBetweenNameAndSeparator` | src/Microsoft.AspNet.Mvc.ModelBinding/FileUpload/FormFileExtensions.cs:27-31 | With `name=` first at `i` and the first later `;` at `k`, the call succeeds. The model name is the header slice from `i + 5` to `k` with its quotes removed, and it is no longer than that slice. |
| `FormFileExtensions.FileNameAfterFileNameToken` | src/Microsoft.AspNet.Mvc.ModelBinding/FileUpload/FormFileExtensions.cs:35-38 | With `filename=` first at `j`, a successful call returns the suffix from `j + 9` with its quotes removed. The file name is no longer than that suffix. |
| `FormFileExtensions.FileNameFoundImpliesNameFound` | src/Microsoft.AspNet.Mvc.ModelBinding/FileUpload/FormFileExtensions.cs:27-35 | Whenever `filename=` is found at `j`, the `name=` search also succeeds, at an index no greater than `j + 4`. |
| `FormFileExtensions.ModelNamePrefixOfFileName` | src/Microsoft.AspNet.Mvc.ModelBinding/FileUpload/FormFileExtensions.cs:27-38 | If the `name=` search lands inside the first `filename=` and a `;` follows, the call succeeds and the model name is a prefix of the file name. |
| `FormFileExtensions.ModelNameFromFileNameParameter` | src/Microsoft.AspNet.Mvc.ModelBinding/FileUpload/FormFileExtensions.cs:27-38 | Suppose `filename=` first occurs at `j` and no `name=` starts before `j + 4`. Then the `name=` search returns `j + 4`, so the model name is read from the filename parameter. The call fails exactly when no `;` follows, and on success the model name is a prefix of the file name. |
| `FormFileExtensions.FileNameIndependentOfPrefix` | src/Microsoft.AspNet.Mvc.ModelBinding/FileUpload/FormFileExtensions.cs:34-41 | Take two headers that agree from their first `filename=` on and may differ before it (in their `name=` part, say). When both calls succeed, they return the same file name. |
| `FormFileExtensions.ParseFileFormDataHeader` | src/Microsoft.AspNet.Mvc.ModelBinding/FileUpload/FormFileExtensions.cs:20-42 | Round trip. Parsing `form-data; name="<m>"; filename="<f>"` gives exactly `Ok((m, f))`. This holds whenever `m` has no `"`, no `;` and no `filename=`, and `f` has no `"`. |

## Left out

- `FormFileExtensions.ParseContentDisposition` (and `Strings.IndexOfIgnoreCase`): `StringComparison.CurrentCultureIgnoreCase` is culture-sensitive. It can fold non-ASCII letters, and some cultures fold differently (the Turkish dotted and dotless `i` in `FILENAME=`). It can also skip characters that the culture treats as ignorable, and it can reject a match whose `=` is followed by a combining mark. The model uses invariant ASCII folding of `A`..`Z` and compares all other characters exactly.
- `Strings.IndexOfChar`: `temp.IndexOf(";")` is a culture-sensitive string search in .NET. The model uses an ordinal search for the character. The two can differ when the culture's collation treats the characters around the `;` specially: ignorable characters next to it, or a combining mark right after it (a search that uses ICU does not return a match that ends inside a grapheme cluster).
- A `null` `ContentDisposition` (a `NullReferenceException` in the source) is not modelled. The header is always a string.
- The rest of `IFormFile` (streams, length, headers other than `Content-Disposition`) is not used by the method and is not modelled.
- .NET strings are UTF-16 code-unit sequences and may hold lone surrogates. Dafny's `char` is a Unicode scalar value, so such strings are outside the model. The positions `i`, `j` and `k` in the lemmas count scalar values. For text outside the Basic Multilingual Plane they differ from the .NET UTF-16 indices, but the model name and file name returned are the same strings.
- The rest of the framework (action results, media-type negotiation, filters, startup) is outside this model.
