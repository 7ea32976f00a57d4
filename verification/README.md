# Response streaming framer and text-template writer

This project models three small pieces of the AWS Lambda .NET libraries in Dafny and proves properties about them.

- **`StreamedResponseWrapper`** (runtime support client). This is the read-only stream that the runtime hands to the Lambda runtime API when a function streams its response. In order, it emits:
  - the JSON-serialised response metadata (the "header");
  - eight zero bytes;
  - the bytes of the function's own payload stream.

  It emits them through ordinary `Read(buffer, offset, count)` calls. The model is a class over a caller-owned `array<byte>`. The payload stream is an abstract `PayloadSource`: a byte sequence with a cursor. Each of its reads hands over any number of the remaining bytes, which is chosen nondeterministically. The key result is `ReadToEnd`. For every sequence of read sizes of at least one byte, and every way the payload stream splits its data, the concatenated reads are exactly `header ++ 8 zero bytes ++ payload`.
- **`StreamedResponse`**. This is the metadata record: status code, headers and cookies, plus the payload stream. It is modelled as a datatype. The three constructors become three functions with their fixed defaults (status 200, a single `Content-Type` header, no cookies).
- **`ExecutableAssemblyBase`** (the T4 template base class used by the source generator). This is an indentation-aware string builder. `Write` puts the current indent before the text when the output is empty or the previous write ended with NewLine. It also inserts the indent after each NewLine inside the text, but not after a final one. A NewLine split across two calls (`"\r"`, then `"\n..."`) or a line break that is not NewLine (a literal `"\n"` where NewLine is `"\r\n"`) therefore starts a line without the indent, in the model as in the source. `PushIndent`, `PopIndent` and `ClearIndent` manage a stack of indent lengths whose sum is always the length of the current indent. The model is a class with a `string` output, an indent string and a `seq<int>` stack. `Write` is proved against a reference definition, `IndentLines`. A separate lemma shows that the source's replace-then-trim algorithm computes `IndentLines`.

The files:
- `common.dfy`: bytes, `Option`, exceptions and results.
- `streamed_response.dfy`: module `StreamedResponses`.
- `response_framing.dfy`: module `ResponseFraming`.
- `template_text.dfy`: module `TemplateText`.

## Model

| member | source | states |
|---|---|---|
| ResponseFraming.StreamedResponseWrapper.Read | Libraries/src/Amazon.Lambda.RuntimeSupport/Client/StreamedResponseWrapper.cs:61-99 | Each call advances `writtenBytes` by `min(count, header.Length + 8 - writtenBytes)`. `headerWritten` never goes back to false. The buffer slice `[offset, offset+r)` holds the rest of the frame, then payload bytes. Cells outside `[offset, offset+count)` are unchanged, and when the payload stream is not read, so are cells outside `[offset, offset+r)`. The payload stream is read once exactly when the frame was already complete or room is left after it. In that case at least one payload byte arrives if any remains. The result is 0 exactly when `count` is 0 or everything has been returned. Total output so far grows by exactly the returned bytes. |
| ResponseFraming.StreamedResponseWrapper.FrameThenRead | Libraries/src/Amazon.Lambda.RuntimeSupport/Client/StreamedResponseWrapper.cs:68-98 | While the frame is incomplete, one call returns the rest of the frame up to `count` bytes. Then, only if room is left, it makes one payload read, which delivers at least one byte while payload remains. The result is 0 exactly when `count` is 0. The invariant is kept. |
| ResponseFraming.StreamedResponseWrapper.WriteFraming | Libraries/src/Amazon.Lambda.RuntimeSupport/Client/StreamedResponseWrapper.cs:68-90 | The framing step copies `min(count, rest of frame)` bytes: first the remaining header bytes, then zeros up to logical position `header.Length + 8`. No other buffer cell changes. |
| ResponseFraming.StreamedResponseWrapper.CopyHeader | Libraries/src/Amazon.Lambda.RuntimeSupport/Client/StreamedResponseWrapper.cs:70-77 | If header bytes remain, copies `min(rest of header, count)` of them, in order, from position `writtenBytes`; otherwise copies nothing. Advances `writtenBytes` by that number and changes no other buffer cell. |
| ResponseFraming.StreamedResponseWrapper.WriteSentinel | Libraries/src/Amazon.Lambda.RuntimeSupport/Client/StreamedResponseWrapper.cs:80-90 | Below logical position `header.Length + 8`, writes `min(rest of frame, count)` zero bytes; otherwise writes nothing. Advances `writtenBytes` by that number and changes no other buffer cell. |
| ResponseFraming.ReadToEnd | Libraries/src/Amazon.Lambda.RuntimeSupport/Client/StreamedResponseWrapper.cs:61-99 | Chunking invariance. Reading a fresh wrapper until a read returns 0, with any read sizes of at least 1 and any inner chunking, yields exactly the serialised metadata, then 8 zero bytes, then the payload. |
| ResponseFraming.EmittedExtends | Libraries/src/Amazon.Lambda.RuntimeSupport/Client/StreamedResponseWrapper.cs:92-98 | The prefix of the envelope returned after a read is the earlier prefix followed by that read's bytes, given that payload bytes are only read once the frame is complete. |
| ResponseFraming.Frame | Libraries/src/Amazon.Lambda.RuntimeSupport/Client/StreamedResponseWrapper.cs:70-90 | The frame is the header followed by exactly 8 bytes, all of them zero. |
| ResponseFraming.Zeros | Libraries/src/Amazon.Lambda.RuntimeSupport/Client/StreamedResponseWrapper.cs:83-86 | `n` bytes, each equal to zero. |
| ResponseFraming.StreamedResponseWrapper.constructor | Libraries/src/Amazon.Lambda.RuntimeSupport/Client/StreamedResponseWrapper.cs:43-51 | The header is the serialisation of the response's metadata (stream excluded). The input is the response's stream. `writtenBytes` starts at 0 and `headerWritten` at false, so nothing has been emitted yet. |
| ResponseFraming.StreamedResponseWrapper.CanRead | Libraries/src/Amazon.Lambda.RuntimeSupport/Client/StreamedResponseWrapper.cs:33 | Same answer as the payload stream's `CanRead`. |
| ResponseFraming.StreamedResponseWrapper.CanSeek | Libraries/src/Amazon.Lambda.RuntimeSupport/Client/StreamedResponseWrapper.cs:35 | Always false. |
| ResponseFraming.StreamedResponseWrapper.CanWrite | Libraries/src/Amazon.Lambda.RuntimeSupport/Client/StreamedResponseWrapper.cs:37 | Always false. |
| ResponseFraming.StreamedResponseWrapper.Length | Libraries/src/Amazon.Lambda.RuntimeSupport/Client/StreamedResponseWrapper.cs:39 | Always fails with `NotSupportedException`. |
| ResponseFraming.StreamedResponseWrapper.Position | Libraries/src/Amazon.Lambda.RuntimeSupport/Client/StreamedResponseWrapper.cs:41 | Inner position plus `writtenBytes`. This equals the payload's starting position plus the number of bytes returned so far. |
| ResponseFraming.StreamedResponseWrapper.SetPosition | Libraries/src/Amazon.Lambda.RuntimeSupport/Client/StreamedResponseWrapper.cs:41 | The setter always fails with `NotSupportedException`. |
| ResponseFraming.StreamedResponseWrapper.Seek | Libraries/src/Amazon.Lambda.RuntimeSupport/Client/StreamedResponseWrapper.cs:101-104 | Always fails with `NotSupportedException`. |
| ResponseFraming.StreamedResponseWrapper.SetLength | Libraries/src/Amazon.Lambda.RuntimeSupport/Client/StreamedResponseWrapper.cs:106-109 | Always fails with `NotSupportedException`. |
| ResponseFraming.StreamedResponseWrapper.Write | Libraries/src/Amazon.Lambda.RuntimeSupport/Client/StreamedResponseWrapper.cs:111-114 | Always fails with `NotSupportedException`. |
| ResponseFraming.StreamedResponseWrapper.Dispose | Libraries/src/Amazon.Lambda.RuntimeSupport/Client/StreamedResponseWrapper.cs:53-57 | Releases the payload stream once more on every call (there is no guard) and leaves the read state as it was. |
| StreamedResponses.FromStream | Libraries/src/Amazon.Lambda.RuntimeSupport/Client/StreamedResponse.cs:34-41 | Keeps the stream, sets status 200 and headers exactly `{"Content-Type": "application/json"}`, and leaves cookies unset. |
| StreamedResponses.WithContentType | Libraries/src/Amazon.Lambda.RuntimeSupport/Client/StreamedResponse.cs:49-56 | Keeps the stream, sets status 200 and headers exactly `{"Content-Type": contentType}`, and leaves cookies unset. |
| StreamedResponses.WithStatusCode | Libraries/src/Amazon.Lambda.RuntimeSupport/Client/StreamedResponse.cs:65-73 | Keeps the stream, sets the given status and headers exactly `{"Content-Type": contentType}`, and leaves cookies unset. |
| StreamedResponses.StreamedResponse.Metadata | Libraries/src/Amazon.Lambda.RuntimeSupport/Client/StreamedResponse.cs:26-92 | The serialised view holds cookies, headers and status code, and not the stream. |
| StreamedResponses.StreamedResponse.SetCookies | Libraries/src/Amazon.Lambda.RuntimeSupport/Client/StreamedResponse.cs:79-80 | The setter replaces cookies and nothing else. |
| StreamedResponses.StreamedResponse.SetHeaders | Libraries/src/Amazon.Lambda.RuntimeSupport/Client/StreamedResponse.cs:85-86 | The setter replaces headers and nothing else. |
| StreamedResponses.StreamedResponse.SetStatusCode | Libraries/src/Amazon.Lambda.RuntimeSupport/Client/StreamedResponse.cs:91-92 | The setter replaces the status code and nothing else. |
| StreamedResponses.ConstructorsAgree | Libraries/src/Amazon.Lambda.RuntimeSupport/Client/StreamedResponse.cs:34-73 | Each shorter constructor is the longer one with content type "application/json" and status 200 filled in. |
| StreamedResponses.MetadataIgnoresStream | Libraries/src/Amazon.Lambda.RuntimeSupport/Client/StreamedResponse.cs:26-27 | The serialised metadata does not depend on the stream (`JsonIgnore`). |
| TemplateText.ExecutableAssemblyBase.constructor | Libraries/src/Amazon.Lambda.Annotations.SourceGenerator/Templates/ExecutableAssembly.cs:233-237 | Starts with empty output, empty indent, empty stack and no pending newline. The invariant holds. |
| TemplateText.ExecutableAssemblyBase.Write | Libraries/src/Amazon.Lambda.Annotations.SourceGenerator/Templates/ExecutableAssembly.cs:316-354 | A null or empty text changes nothing. Otherwise the output grows by the indent (if the output is empty or ends a line), then by the text with the indent after every newline but a final one. `endsWithNewline` becomes "text ends with NewLine". The indent stack and the invariant are kept. |
| TemplateText.ExecutableAssemblyBase.WriteLine | Libraries/src/Amazon.Lambda.Annotations.SourceGenerator/Templates/ExecutableAssembly.cs:358-363 | Appends what `Write(text)` appends, then NewLine, and sets `endsWithNewline`. |
| TemplateText.ExecutableAssemblyBase.PushIndent | Libraries/src/Amazon.Lambda.Annotations.SourceGenerator/Templates/ExecutableAssembly.cs:400-408 | Null fails with `ArgumentNullException("indent")` and changes nothing. Otherwise it appends the indent to the current indent and pushes its length. The sum invariant is kept. |
| TemplateText.ExecutableAssemblyBase.PopIndent | Libraries/src/Amazon.Lambda.Annotations.SourceGenerator/Templates/ExecutableAssembly.cs:412-426 | On an empty stack, returns "" and changes nothing. Otherwise it drops the top length and returns that many characters cut from the end of the current indent, so remaining indent + returned text = old indent. The sum invariant is kept. |
| TemplateText.ExecutableAssemblyBase.ClearIndent | Libraries/src/Amazon.Lambda.Annotations.SourceGenerator/Templates/ExecutableAssembly.cs:430-434 | Empties both the indent and the stack and leaves the output alone. |
| TemplateText.PushThenPop | Libraries/src/Amazon.Lambda.Annotations.SourceGenerator/Templates/ExecutableAssembly.cs:400-426 | `PushIndent(s)` then `PopIndent()` returns `s` and restores the indent, the stack and the output. |
| TemplateText.SumBoundsLast | Libraries/src/Amazon.Lambda.Annotations.SourceGenerator/Templates/ExecutableAssembly.cs:415-422 | The top pushed length is between 0 and the current indent length, so `PopIndent`'s substring is in range. |
| TemplateText.IndentText | Libraries/src/Amazon.Lambda.Annotations.SourceGenerator/Templates/ExecutableAssembly.cs:337-353 | The source's text step (unchanged under an empty indent, otherwise replace then strip the last indent after a final newline) computes exactly `IndentLines`. |
| TemplateText.ReplaceMatchesIndentLines | Libraries/src/Amazon.Lambda.Annotations.SourceGenerator/Templates/ExecutableAssembly.cs:343-349 | Replacing each NewLine with NewLine + indent gives the indented text, plus exactly one extra indent when the text ends with NewLine. So cutting `indent.Length` characters is right. |
| TemplateText.IndentLinesWithoutIndent | Libraries/src/Amazon.Lambda.Annotations.SourceGenerator/Templates/ExecutableAssembly.cs:337-341 | With an empty indent the text is written unchanged. |
| TemplateText.IndentLinesKeepsFinalNewLine | Libraries/src/Amazon.Lambda.Annotations.SourceGenerator/Templates/ExecutableAssembly.cs:331-349 | An indented text still ends with NewLine when the original did. This is why the output ends with NewLine whenever `endsWithNewline` is set. |
| TemplateText.NewLinesAreBorderless | Libraries/src/Amazon.Lambda.Annotations.SourceGenerator/Templates/ExecutableAssembly.cs:331-343 | Neither value of NewLine ("\n", "\r\n") overlaps itself, so its occurrences in a text are disjoint. |
| TemplateText.EndsWithAfterDrop | Libraries/src/Amazon.Lambda.Annotations.SourceGenerator/Templates/ExecutableAssembly.cs:331 | Dropping one leading character, or one leading NewLine, keeps whether a non-empty remainder ends with NewLine. |

## Left out

- JSON serialisation (`System.Text.Json`) is a parameter `serialize` of the wrapper's constructor. The key order, the property names in the output, and whether null cookies are omitted are not modelled. The model only sees the serialised value of the metadata record.
- The payload stream is abstract: a byte sequence with a cursor whose reads return any number of the remaining bytes, and 0 only at the end or for a zero count. Its I/O errors, blocking, `Flush` and `Position` semantics beyond the cursor are not modelled. `Flush` on the wrapper is a plain pass-through and is left out.
- ResponseFraming.PayloadSource.CanRead: always true. A real stream may answer false, for example after it has been disposed; this is not modelled.
- ResponseFraming.PayloadSource.Read: as .NET `Stream.Read` allows, the contract lets the payload stream change any cell in `[offset, offset + count)`. It only promises the first `k` of them (the bytes it returns).
- StreamedResponses.WithContentType: the content type, and each cookie entry, is a (non-null) string. A null content type, which the constructors store without a check, is not modelled.
- Buffer bounds and non-negative `offset`/`count` are preconditions of `Read` (`nat` parameters and `offset + count <= buffer.Length`), not modelled exceptions.
- 32-bit `int` arithmetic in `Read` is unbounded here. `header.Length + 8` and the byte counts cannot overflow, because a .NET array holds at most 0x7FFFFFC7 elements.
- ResponseFraming.StreamedResponseWrapper.Dispose: the model counts releases of the payload stream and sets a flag. It does not model that the method is declared with `new` and so is not called through a `Stream`-typed reference, nor the base class's own disposal.
- The `InputStream` internal setter of the wrapper is not modelled; the input is fixed at construction.
- TemplateText.ExecutableAssemblyBase.constructor: `Environment.NewLine` is a constructor parameter restricted to "\n" or "\r\n", the values it takes on the supported platforms.
- TemplateText.ExecutableAssemblyBase.Write: `String.EndsWith(..., StringComparison.CurrentCulture)` is modelled as an ordinal suffix test. Culture-specific comparison rules are not modelled. For example, under ICU-based globalization `"\r\n"` compares as one unit, so with NewLine `"\n"` a text ending in `"\r\n"` may not count as ending with NewLine in the source, and there the trailing indent would be kept, while the model strips it.
- `Write(format, args)` and `WriteLine(format, args)` are left out: they depend on culture-sensitive `string.Format`.
- `Error` and `Warning` only add to a `CompilerErrorCollection` and are left out, as are the `Errors`, `Session` and `GenerationEnvironment` setter properties.
- `TransformText` and `ToStringHelper` depend on types and reflection outside this code and are left out.
- The `Headers` and `Cookies` setters of `StreamedResponse` accept any value. A null `Headers` dictionary is not modelled: headers are always a map.
