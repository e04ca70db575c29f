# epMailer in Dafny

`epMailer` is a single PHP class that composes an e-mail and hands it to PHP's
`mail()`. This project models its core:
- the header table (an ordered PHP array from header name to value);
- the three recipient lists;
- the subject, the body and the transfer-encoding name;
- the public setters and getters;
- the helpers that turn these into the four strings `send()` passes to `mail()`.

The strings are RFC 2047 "B" encoded-words for the subject and for display names, a base64, quoted-printable or unencoded body, and a CRLF-separated header block.

The model is purely functional. The composer is an immutable record (`Mailer.Composer`), and every method is a function from the record and the call's arguments to the new record and the method's return value.

PHP strings are byte sequences (`PhpStrings.Bytes`). A PHP `null` default argument is `None`, and PHP truthiness of a string argument is `PhpStrings.Truthy`: `null`, `""` and `"0"` are false.

Files:
- `php_strings.dfy` (`PhpStrings`): the PHP built-ins the class uses:
  - `rtrim` with its default character list;
  - `implode`;
  - `chunk_split` with its defaults (76-byte chunks, each followed by CRLF).
- `base64.dfy` (`Base64`): `base64_encode` as in section 4 of RFC 4648, with a strict decoder proved to be its exact inverse.
- `header_table.dfy` (`HeaderTable`): the header array. Writing a name overwrites its value where it stands, and writing a new name appends it. `encodeHeaders` renders the table.
- `mailer.dfy` (`Mailer`): the class, its constants and its methods, and the invariant `Valid` that every composer reachable from the constructor keeps.
- `properties.dfy` (`MailerProperties`): properties that relate several calls.

`quoted_printable_encode` and `wordwrap($b, 75, "\r\n")` are outside the model's own definitions. They enter as function parameters (`qp`, `wrap`), so every property holds whatever those functions compute.

## Model

| member | source | states |
|---|---|---|
| PhpStrings.RTrim | epMailer.php:119 | `rtrim` returns a prefix of its input whose last byte, if any, is not whitespace, and everything it removed is whitespace |
| PhpStrings.RTrimAppend | epMailer.php:119 | trimming a concatenation whose second part holds a non-whitespace byte never touches the first part |
| PhpStrings.RTrimCrlf | epMailer.php:117-119 | a line ending in a non-whitespace byte loses exactly its CRLF under `rtrim` |
| PhpStrings.Implode | epMailer.php:283-291 | `implode` of no pieces is empty; otherwise the result starts with the first piece and its length is the pieces' total plus one glue per gap |
| PhpStrings.ImplodeAppend | epMailer.php:283-291 | appending a piece to a non-empty list appends the glue and the piece to the joined string |
| PhpStrings.Chunks | epMailer.php:130 | the division of a string into chunks of at most 76 bytes, all but the last exactly 76, concatenating back to the string |
| PhpStrings.ChunkSplit | epMailer.php:130 | `chunk_split` is every chunk followed by CRLF (so `""` becomes one CRLF) |
| PhpStrings.ChunkSplitUnsplit | epMailer.php:130 | deleting the CR and LF bytes from `chunk_split`'s output gives back an input that had none |
| Base64.Encode | epMailer.php:91 | four output characters per started group of three bytes, all from the alphabet except at most two trailing `=` |
| Base64.DecodeEncode | epMailer.php:91 | decoding the encoding of any byte string gives it back |
| Base64.EncodeDecode | epMailer.php:91 | whatever the strict decoder accepts is the encoding of what it returns |
| Base64.DecodeIffEncode | epMailer.php:91 | `s` decodes to `b` exactly when `s` is the encoding of `b` |
| HeaderTable.Set | epMailer.php:79-82 | after `$headers[$name] = $value`, looking up `$name` gives `$value` |
| HeaderTable.SetAppends | epMailer.php:81 | writing a name that is not present appends it at the end |
| HeaderTable.SetFrame | epMailer.php:81 | a write leaves every other entry and lookup as it was, and overwriting a present name keeps the key order |
| HeaderTable.SetLayout | epMailer.php:81 | a write adds the name at the end only when it was absent, and every entry under another name keeps its position and value |
| HeaderTable.SetIfLayout | epMailer.php:283-289 | a write guarded by a condition appends only a new name, keeps other entries in place and does not change which other names are present |
| HeaderTable.SetInPlace | epMailer.php:81 | with unique keys, overwriting the name at position `i` replaces exactly that entry |
| HeaderTable.SetExisting | epMailer.php:81 | writing the value a name already holds changes nothing |
| HeaderTable.SetUnique | epMailer.php:81 | a write keeps the keys unique |
| HeaderTable.EncodeHeaders | epMailer.php:113-120 | the loop builds `name: value` CRLF lines in table order and trims them; the result is a prefix of the untrimmed lines and equals `Render` |
| HeaderTable.RenderShape | epMailer.php:113-120 | an empty table renders as `""`; otherwise only the last line is trimmed, and the block never ends in whitespace |
| HeaderTable.RenderLast | epMailer.php:117-119 | when the last value ends in a non-whitespace byte, the block is every line with only the final CRLF removed |
| HeaderTable.RenderPrefix | epMailer.php:113-120 | the lines of leading entries reach the rendered block untouched |
| HeaderTable.RenderOpensWith | epMailer.php:113-120 | the block opens with the untrimmed lines of the first `n` entries and the next entry's name and colon |
| Mailer.EncodeString | epMailer.php:89-92 | an encoded-word `=?UTF-8?B?…?=` whose payload is base64 characters decoding back to the input; `""` gives `=?UTF-8?B??=` |
| Mailer.EncodeAddress | epMailer.php:100-107 | a truthy name gives the encoded name, `" <"`, the address and `">"`; a falsy one gives the bare address |
| Mailer.ParseEncodeAddress | epMailer.php:100-107 | an entry formatted with a truthy name can be parsed back into exactly that address and name |
| Mailer.EncodeBody | epMailer.php:126-143 | for `base64`, CRLF-chunked base64 whose line-break-free content decodes back to the body; for `quoted-printable`, `qp` of the body; for every other encoding, the body unchanged |
| Mailer.SetHeader | epMailer.php:79-82 | the named header reads back the value; other headers and every other field are unchanged; a new name is appended at the end |
| Mailer.SetHeaderValid | epMailer.php:79-82 | writing an optional header keeps the composer invariant, provided a `Cc`/`Bcc` write has a non-empty list |
| Mailer.New | epMailer.php:68-72 | the constructor leaves headers `MIME-Version: 1.0`, `X-Mailer: epMailer`, `Content-Transfer-Encoding: quoted-printable` in that order, subject `(no subject)`, an empty body and empty lists, and a valid composer |
| Mailer.Encoding | epMailer.php:151-158 | a truthy argument becomes both the encoding field and the `Content-Transfer-Encoding` header and is returned; that header is overwritten in place or appended if new, and every other header keeps its value; a falsy one changes nothing and returns the current encoding; validity is kept |
| Mailer.EncodingValid | epMailer.php:154 | overwriting the transfer encoding with a truthy value keeps the composer valid |
| Mailer.AddRecipient | epMailer.php:166-169 | the formatted entry is appended to the `To` list and nothing else changes |
| Mailer.AddCC | epMailer.php:177-180 | the formatted entry is appended to the `Cc` list and nothing else changes |
| Mailer.AddBCC | epMailer.php:188-191 | the formatted entry is appended to the `Bcc` list and nothing else changes |
| Mailer.Subject | epMailer.php:199-205 | `null` reads the subject; any string, even `""`, replaces it and is returned |
| Mailer.From | epMailer.php:213-220 | the `From` header holds what `encodeAddress` makes of the arguments, appended if new and in place otherwise; nothing else changes |
| Mailer.ReplyTo | epMailer.php:228-235 | the `Reply-To` header holds what `encodeAddress` makes of the arguments, appended if new and in place otherwise; nothing else changes |
| Mailer.Body | epMailer.php:243-250 | `null` reads the body; any string replaces it and is returned |
| Mailer.TextBody | epMailer.php:258-262 | `Content-Type` becomes plain text, appended if new and in place otherwise; a truthy body is stored word-wrapped; `""`/`"0"` is stored as given; `null` keeps the body; the resulting body is returned |
| Mailer.HtmlBody | epMailer.php:270-274 | `Content-Type` becomes HTML, appended if new and in place otherwise; any string body is stored unchanged; `null` keeps the body; the resulting body is returned |
| Mailer.Finalize | epMailer.php:283-289 | a non-empty `Cc`/`Bcc` list is written as the comma-joined header, an empty list leaves its header as it was, and nothing else changes; a new `Cc` header is appended after the existing entries and a new `Bcc` after that, an existing one keeps its position, and every other entry keeps its position and value |
| Mailer.FinalizeSteps | epMailer.php:283-289 | the two conditional writes of `send` append `Cc` then `Bcc` only when the list is non-empty and the name is new, and leave every other entry in place |
| Mailer.FinalizeValid | epMailer.php:283-289 | those writes keep the composer valid, and an empty `Cc`/`Bcc` list still has no header |
| Mailer.Send | epMailer.php:281-297 | the arguments of `mail()`: the joined `To` list (empty when there are no recipients), the encoded subject, the encoded body and the rendered headers of the composer after its header writes, which stays valid |
| MailerProperties.SubjectGetAfterSet | epMailer.php:199-205 | a subject read after a write returns what was written |
| MailerProperties.EncodingGetAfterSet | epMailer.php:151-158 | an encoding read after a truthy write returns what was written |
| MailerProperties.ContentTypeLastCallWins | epMailer.php:258-274 | whichever of `textBody`/`htmlBody` ran last decides the single `Content-Type` header, and `textBody(null)` keeps the body |
| MailerProperties.CcAccumulates | epMailer.php:283-285 | after one more `addCC`, the `Cc` header is the new entry, or the earlier ones joined with `", "` followed by `", "` and the new entry |
| MailerProperties.SingleCc | epMailer.php:283-285 | one `addCC` without a name on an empty list gives a `Cc` header holding exactly the address |
| MailerProperties.SendIdempotent | epMailer.php:281-297 | sending twice without changes in between produces the same message and composer |
| MailerProperties.HeaderBlockOpensWithDefaults | epMailer.php:113-120 | every header block opens with the `MIME-Version: 1.0` and `X-Mailer: epMailer` lines, then `Content-Transfer-Encoding:` |
| MailerProperties.TextBodyAfterNew | epMailer.php:258-262 | `textBody` on a fresh composer appends `Content-Type` after the three default headers |
| MailerProperties.DefaultMessage | epMailer.php:281-297 | constructor, `addRecipient('bob@example.com')`, `textBody('hi')`, `send()`: the recipient verbatim, the default subject encoded, `qp` of the wrapped body, and four header lines with the last CRLF trimmed |

## Left out

- The `mail()` call itself (line 296) and its boolean result: delivery is I/O, so `Send` returns the four strings it would hand over.
- `quoted_printable_encode` and `wordwrap`: these are function parameters, not definitions, so nothing is proved about their output beyond its use.
- The character set: strings are bytes, and no UTF-8 validity is checked, as in the source.
- PHP's loose `==` in the `switch` of `encodeBody`: every encoding name involved is non-numeric, so it coincides with string equality, which is what the model uses.
- Arguments of other PHP types (arrays, numbers, objects): every argument is a string or `null`.
- Mailer.New: the record starts from an empty encoding where PHP has `null` before the constructor calls `encoding`. No public call can observe the difference.
- Mailer.Send: its own contract refers to `EncodeString`, `EncodeBody` and `Render` for the three encoded strings, rather than restating their properties; those are proved on the three functions.
