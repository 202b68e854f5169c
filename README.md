# esniper utilities in Dafny

This project models the sequential logic in esniper's `util.c` and proves properties of that model:

- the proxy-setting parser `parseProxy`;
- the boolean option parser `boolValue`;
- the in-memory password obfuscation (`encryptPassword`, `decryptPassword`, `clearPassword`, and their globals `passwordPad`, `passwordLen`, `needSeed`);
- the string duplication helpers (`myStrdup`, `myStrndup`, `myStrdup2/3/4`) and the log-file name `logOpen` builds with them;
- the Cygwin/Windows `basename` and `dirname`, where `/` and `\` both separate path components.

A C string is modelled as the characters before its terminator. A NULL pointer is `None`. Buffers that the C code changes in place are arrays:

- the password buffer and its pad (`array<bv8>`);
- the path buffer that `basename` and `dirname` overwrite (`array<char>`, terminator included).

The bytes `random()` would produce are a parameter `random: nat -> bv8`, an arbitrary stream.

Modules, one per component:

- `CType` (ctype.dfy): `isdigit`, `tolower`.
- `Alloc` (alloc.dfy): `Option`, the strdup family, the log-file name.
- `BoolValue` (boolvalue.dfy).
- `Proxy` (proxy.dfy).
- `Password` (password.dfy).
- `Path` (path.dfy).

Each imperative routine is a method proved against a specification function:

- `BoolValueOf` against `Meaning`;
- `ParseProxy` against `Parse`;
- `Basename`, `Dirname` and `DirnameAsWritten` against `BaseNameOf`, `DirNameOf` and `DirNameAsWrittenOf`;
- the password methods against the class invariant `Valid()` and the plaintext `Secret` that the buffer stands for.

Lemmas then state what those functions mean:

- round trips of the proxy grammar, in both directions;
- both directions of the boolean word lookup;
- XOR with the pad being self-inverse;
- the path splitting into dirname, separator and basename.

Edge cases the model keeps as the code has them:

- A setting whose host span is empty, such as `"/"` or `":8080"`, disables the proxy and succeeds (util.c:392-397). The comment at util.c:374-375 mentions only the empty string.
- `clearPassword` overwrites the buffer and the pad with pseudo-random bytes, not zeros (util.c:460-463).
- `clearPassword` wipes nothing when no pad was ever made (`passwordLen` is 0) and leaves `options.encrypted` as it was.

The string arguments of `Parse`, `Meaning` and `BoolValueOf` stand for C strings, so they are meant to hold no `'\0'` and only byte-sized characters. On a string with an embedded `'\0'` the model reads past it, where the C code would stop. No precondition enforces this.

## Model

| member | source | states |
|---|---|---|
| CType.ToLower | util.c:353 | upper-case ASCII letters map to their lower-case letter, 32 code points down; every other character is unchanged |
| CType.Lower | util.c:352-353 | lowering a string keeps its length and lowers each character in place |
| CType.IsDigit | util.c:402 | isdigit holds exactly for the ten decimal digits "0" to "9" |
| CType.LowerIdempotent | util.c:352-353 | lowering a string twice is lowering it once |
| Alloc.Strdup | util.c:77-90 | NULL gives NULL and only NULL does; otherwise a copy of the same length holding the same characters |
| Alloc.Strndup | util.c:92-103 | NULL gives NULL and only NULL does; otherwise the result has exactly len characters and is a prefix of the argument |
| Alloc.Strdup2 | util.c:105-112 | the result is the first argument followed by the second, with lengths adding up |
| Alloc.Strdup3 | util.c:114-121 | the result is made of the three arguments in order, each at its own offset |
| Alloc.Strdup4 | util.c:123-130 | the result is made of the four arguments in order, each at its own offset |
| Alloc.StrdupNested | util.c:105-130 | the 3- and 4-argument forms equal nested 2-argument ones, grouped either way |
| Alloc.LogFileName | util.c:152-161 | the name logOpen opens starts with the directory prefix (logdir + "/" or nothing) and then progname, ends in ".log", and is 4 characters longer than those two without an auction, or the auction's length plus 5 longer with one |
| Alloc.LogFileNameShape | util.c:152-161 | the log file is progname + ".log", or progname + "." + auction + ".log" when there is an auction, with logdir + "/" in front when a directory is given |
| Alloc.LogFileNameAuction | util.c:152-161 | the auction can be read back from the log-file name at a fixed offset, and the name ends in ".log" |
| Alloc.LogFileNameInjective | util.c:152-161 | two different auctions never share a log file |
| BoolValue.Meaning | util.c:322-360 | the reading of boolValue: NULL is true (1); otherwise the lower-cased value is 0 when it is a false word, 1 when it is a true word, -1 otherwise; the answer is always -1, 0 or 1 |
| BoolValue.BoolValues | util.c:329-344 | the twelve words of the table in the source's order, each false word just before its true partner |
| BoolValue.TableParity | util.c:329-344 | a table entry is a false word exactly at an even index and a true word exactly at an odd one |
| BoolValue.TableCoversWords | util.c:329-344 | every false word and every true word is an entry of the table |
| BoolValue.BoolValueOf | util.c:326-361 | the copy, lowercase and scan loops compute Meaning: NULL gives 1; otherwise the parity of the matching entry; -1 when nothing matches; the result is always -1, 0 or 1 |
| BoolValue.MeaningIgnoresCase | util.c:351-353 | the answer for a value equals the answer for its lower-cased form |
| BoolValue.MeaningCases | util.c:348-360 | the result is -1, 0 or 1; NULL is 1; 0 exactly for a false word, 1 exactly for a true word, -1 exactly for anything else, ignoring case |
| BoolValue.TrueExamples | util.c:348-360 | "YES", "On" and NULL are true |
| BoolValue.FalseExamples | util.c:348-360 | "0" and "no" are false |
| BoolValue.InvalidExample | util.c:355-360 | "maybe" is invalid (-1) |
| Proxy.HasScheme | util.c:390 | the strncasecmp test: the setting has at least 7 characters and each of the first 7, lowered, is the matching character of "http://" |
| Proxy.StripScheme | util.c:390-391 | the cursor move past an optional case-insensitive "http://": the result is the whole setting or 7 characters shorter |
| Proxy.Strcspn | util.c:392 | the host span holds no ':' or '/' and stops at the first one or at the end |
| Proxy.DigitRun | util.c:402-406 | the digit run is all digits and stops at the first non-digit or at the end |
| Proxy.Decimal | util.c:406 | the base-10 value of a digit string, most significant digit first, as strtol reads it |
| Proxy.DecimalBelowPow10 | util.c:406 | the base-10 value `Decimal` gives a digit string, most significant digit first, is below 10 to the number of digits |
| Proxy.Strtol | util.c:405-409 | strtol from a digit consumes at least one character, stops at the first non-digit, and its value is the decimal of the digits consumed |
| Proxy.Parse | util.c:384-430 | the outcome of parseProxy on the whole setting (skip the optional scheme, take the strcspn host span, then read what follows it); NULL disables the proxy, and an endpoint has a non-empty host and a port of at most LONG_MAX |
| Proxy.AfterHost | util.c:400-430 | the outer switch after the host: the end or a lone '/' gives port 80, a ':' goes on to the port, anything else is malformed; an endpoint keeps the host, has a port of at most LONG_MAX, and the proxy is never disabled here |
| Proxy.AfterColon | util.c:401-421 | after the ':': no digits keep port 80; a digit run is the port, malformed above LONG_MAX; an endpoint keeps the host, has a port of at most LONG_MAX, and the proxy is never disabled here |
| Proxy.ParseDisabled | util.c:384-397 | a setting disables the proxy exactly when its host span is empty; an accepted host holds no ':' or '/' and is the start of what follows the scheme |
| Proxy.AfterDigits | util.c:411-420 | the inner switch after the port: accepts exactly the end or a lone '/', with the host and port given |
| Proxy.ParseAtHost | util.c:390-399 | with the cursor after the optional scheme and the host span non-empty, the outcome is decided by what follows the host |
| Proxy.AfterHostColon | util.c:400-402 | after a ':' the outcome is decided by the text after the colon |
| Proxy.AfterHostNoColon | util.c:422-430 | without a ':', a lone '/' or the end gives the default port, and anything else is malformed |
| Proxy.AfterColonDigits | util.c:402-409 | a digit after the ':' is read by strtol; a value above LONG_MAX is an error, and otherwise the rest is checked after the digits |
| Proxy.AfterColonNoDigits | util.c:401-420 | a ':' not followed by a digit keeps port 80 and checks the rest from just after the colon |
| Proxy.AtEndOrLoneSlash | util.c:411-429 | the closing switch accepts exactly the end of the string or a '/' that is the last character |
| Proxy.SwitchAfterHost | util.c:400-430 | accepts exactly when the specification yields an endpoint, and hands back that endpoint's port |
| Proxy.ParseProxy | util.c:377-435 | returns 0 or 1, and 1 exactly when the setting is malformed; NULL or an empty host span sets the host to NULL and keeps the port; success stores the parsed host and port; failure changes neither |
| Proxy.StrcspnStops | util.c:392 | a separator-free host followed by the end, ':' or '/' is exactly the span strcspn measures |
| Proxy.DigitRunStops | util.c:402-406 | digits followed by the end or a non-digit are exactly the run strtol reads |
| Proxy.NoSchemeUnlessWritten | util.c:390-391 | a setting written without "http://" never passes the strncasecmp test, because its host cannot hold the ':' at index 4 |
| Proxy.SchemeOf | util.c:390-391 | every setting is the stripped scheme (empty, or any case of "http://") followed by what the parser reads after it |
| Proxy.StripRendered | util.c:390-391 | the scheme of a well-formed setting, and only that, is skipped |
| Proxy.AfterHostSuffix | util.c:400-430 | every written port part (none, ':' with possibly empty digits) and optional trailing '/' is accepted with that port, or 80 when no digits are given |
| Proxy.AfterHostSpelled | util.c:400-430 | everything accepted after the host is such a port part and optional '/' |
| Proxy.ParseRender | util.c:377-435 | every well-formed setting (optional scheme, non-empty host, optional ':' and digits within LONG_MAX, optional '/') parses to its host and port |
| Proxy.ParseSpelled | util.c:377-435 | conversely, every setting that parses to an endpoint is such a well-formed setting, and the endpoint is its host and port |
| Proxy.ParseOverflow | util.c:405-408 | a port beyond LONG_MAX makes the setting malformed |
| Proxy.DisabledExamples | util.c:392-397 | "", "/", ":8080" and "http://" disable the proxy |
| Proxy.ShortPortFits | util.c:405-408 | a port of at most 18 digits is at most LONG_MAX, so strtol never reports it out of range |
| Proxy.ParseShortPort | util.c:400-430 | the converse of ParseOverflow: a host, ':' and at most 18 digits parse to that host with the digits' port, or 80 when there are none |
| Proxy.Decimal8080 | util.c:406 | "8080" is read as 8080 |
| Proxy.HostOnlyExample | util.c:381 | "h" gives host "h" with the default port 80 |
| Proxy.ColonWithoutDigitsExample | util.c:401-420 | "h:" and "h:/" give host "h" with port 80 |
| Proxy.PortExample | util.c:401-410 | "h:8080" gives host "h" with port 8080 |
| Proxy.UpperSchemeLowered | util.c:390 | "HTTP://" matches the scheme without regard to case |
| Proxy.SchemePortSlashExample | util.c:368 | "HTTP://h:8080/" gives host "h" with port 8080 |
| Proxy.LettersAfterColonExample | util.c:418-419 | "h:abc" is malformed |
| Proxy.TextAfterPortExample | util.c:411-414 | "h:8080/x" is malformed |
| Proxy.PortThenText | util.c:411-414 | a '/' followed by more text after the port is rejected |
| Password.Strlen | util.c:480 | strlen is the index of the first zero byte, and no byte before it is zero |
| Password.StrlenOfCString | util.c:480 | in a terminated password buffer, strlen + 1 is the buffer's size |
| Password.Xor | util.c:485-486 | XORing with the pad keeps the length and XORs each byte with the pad byte at the same index |
| Password.XorInvolutive | util.c:485-498 | XORing twice with the same pad gives back every byte |
| Password.RandomBytes | util.c:482-483 | the pad holds the first n values of the random stream, in order |
| Password.NewPad | util.c:481-483 | the pad-filling loop makes a fresh buffer holding the first n random values |
| Password.XorWithPad | util.c:485-486 | the XOR loop leaves the buffer equal to its old contents XORed with the pad |
| Password.PasswordStore.constructor | util.c:441-443 | the initial state: no pad, passwordLen 0, seeding still needed, not encrypted, and the buffer holding the plaintext with its terminator |
| Password.PasswordStore.SeedPasswordRandom | util.c:445-452 | afterwards the generator no longer needs seeding, and nothing else changes |
| Password.PasswordStore.EncryptPassword | util.c:471-488 | nothing changes when the password is already encrypted or NULL; otherwise the buffer becomes its old contents XORed with the pad and is marked encrypted; an existing pad is reused unchanged; a missing pad is made fresh with strlen + 1 random bytes; the plaintext and the invariant are kept |
| Password.PasswordStore.DecryptPassword | util.c:490-500 | nothing changes when the password is not encrypted, is NULL, or has no pad; otherwise the buffer is XORed with the pad again, is the plaintext once more and is no longer marked encrypted; the pad and passwordLen are kept |
| Password.PasswordStore.ClearPassword | util.c:454-469 | the passwordLen bytes of buffer and pad are overwritten alternately with the next random values; then the password and pad are dropped and passwordLen is 0; the encrypted flag is kept; without a pad the buffer is left as it was |
| Password.EncryptThenDecrypt | util.c:471-500 | encrypting and then decrypting a plaintext password restores every byte and leaves a pad for later calls |
| Path.CLen | util.c:518 | strlen stops at the first '\0', which lies inside a terminated buffer, with no '\0' before it |
| Path.StripSeps | util.c:522-531 | stripping keeps a prefix that does not end in a separator and removes only separators |
| Path.LastSep | util.c:533-538 | the backward scan finds a separator, with none after it, or -1 when there is none |
| Path.BaseNameOf | util.c:509-540 | what basename answers: "." for "", "/" exactly when only separators are left after stripping, otherwise the text after the last remaining separator, which is non-empty and holds no separator |
| Path.DirNameOf | util.c:542-577 | what dirname evidently means to answer: ".", "/", or a proper prefix of the path that stops just before a separator (the stripped path up to its last separator) |
| Path.DirNameAsWrittenOf | util.c:542-577 | what dirname answers with the test cp <= name at util.c:562: ".", "/", or a proper prefix of the path that stops just before a separator; "/" also when one non-separator character is left after stripping |
| Path.StrippedBuffer | util.c:522-531 | the buffer after the trailing separators are overwritten: same size, the stripped path first, '\0' where the separators were, and the bytes from the terminator on unchanged |
| Path.DirBuffer | util.c:542-577 | the buffer dirname leaves: the stripped buffer, with a '\0' written over the last separator when it lies past index 0; same size as the buffer |
| Path.DirBufferCut | util.c:575 | with a last separator past index 0, the cut buffer holds the stripped path up to it, then '\0', then the stripped buffer; otherwise it is the stripped buffer |
| Path.StripTrailingSeparators | util.c:522-531 | the stripping loop overwrites exactly the trailing separators with '\0' and stops at the last character kept |
| Path.StripSepsAt | util.c:524-529 | a prefix that ends in a non-separator and is followed only by separators is what stripping keeps |
| Path.NothingToStrip | util.c:523 | a path that does not end in a separator is left unchanged |
| Path.FindLastSeparator | util.c:533-538 | the scanning loop stops at the last separator at or before the cursor, or at -1 |
| Path.BufferText | util.c:539 | in the stripped buffer, the string from any position up to the stripped length is the stripped path from there on |
| Path.Basename | util.c:509-540 | NULL gives NULL; the buffer ends up with its trailing separators overwritten; the answer designates BaseNameOf the path; whenever something is left after stripping, the answer is the position just after the last remaining separator in the caller's buffer (cp + 1), and otherwise a literal |
| Path.Dirname | util.c:542-577 | NULL gives NULL; answers DirNameOf: "." when empty or when no separator is left, "/" when only separators or when the last separator is at index 0, else the buffer cut at the last separator; in that cut case, and only then, the answer is the caller's buffer itself (name), otherwise a literal; the corrected test at util.c:562 is used |
| Path.DirnameAsWritten | util.c:542-577 | the same routine with the test cp <= name at util.c:562: its answer is DirNameAsWrittenOf the path; it leaves the buffer as Dirname does and, like it, answers the caller's buffer itself exactly in the cut case and a literal otherwise |
| Path.CutText | util.c:575-576 | cutting the stripped buffer at the last separator leaves the text before it |
| Path.EmptyPath | util.c:519-520 | "" gives "." from both |
| Path.OnlySeparators | util.c:528-531 | a path made only of separators strips to nothing and gives "/" from both |
| Path.BaseNameIsComponent | util.c:533-539 | otherwise basename is a non-empty final component: it holds no separator and ends the stripped path |
| Path.Split | util.c:566-576 | with a separator past index 0 left, the stripped path is dirname, that separator and then basename |
| Path.NoSeparatorLeft | util.c:571-572 | with no separator left, dirname is "." and basename is the whole stripped path |
| Path.RootIsParent | util.c:573-574 | with the last separator at index 0, dirname is "/" and basename is what follows it |
| Path.BaseNameIdempotent | util.c:509-540 | the basename of a basename is itself |
| Path.NoSepLastSep | util.c:533-538 | a string without separators has no last separator |
| Path.DirNameAsWrittenCounterexample | util.c:562 | as written, dirname answers "/" for "a/", where the parent is "." |
| Path.DirNameAsWrittenDiffers | util.c:562-563 | the code as written and the corrected test differ exactly on paths with trailing separators whose stripped form has one character |

## Left out

- `prompt` (util.c:285-320): terminal I/O and echo control. Its buffer macros come from `buffer.h`, which is not part of this model.
- The logging subsystem apart from the file name (`logOpen`'s `fopen`, `logClose`, `vlog`, `dlog`, `printLog`, `logChar`): file handles, time formatting and variadic output.
- `timestamp` and `skipline`: they use the wall clock and stream input.
- `nullStr`: a one-line mapping of NULL to the literal "(null)" (util.c:246) that nothing in the model uses.
- Allocation failure: `myMalloc` and `myRealloc` print a message and end the process. In this model allocation always succeeds.
- `srandom`, `random`, `getpid` and `time`: the random stream is an arbitrary function given by the caller, and seeding only clears the `needSeed` flag.
- Password.PasswordStore.ClearPassword: draws buffer byte i from `random(2i)` and pad byte i from `random(2i+1)`. This models the interleaved calls as positions in one stream. Each call is given its own stream, so the model does not carry the generator's position from one call to the next.
- Password.PasswordStore.constructor: the option loader that sets `options.password` is not part of this model. Its result is this constructor: a plaintext password without zero bytes, or none. util.c itself does not tie `passwordLen` and `passwordPad` to the current `options.password`; `Valid` does, which holds only because the constructor is the one place a password is set. Two cases are therefore not modelled: a new password set while a pad exists, and a new password set after a `clearPassword` that left `options.encrypted` set.
- `options.debug` and the other fields of `options`: only `password` and `encrypted` are modelled.
- Proxy.ParseProxy: `long` is taken to be 64 bits (LONG_MAX is 2^63-1). The `(int)` cast of the port at util.c:406 is not modelled, so a port above 2^31-1 keeps its full value instead of being truncated.
- Proxy.ParseProxy: `free` of the previous host is not modelled; the old host is simply replaced.
- Alloc.Strndup: requires len to be at most the length of the string. `memcpy` would read past the terminator otherwise, and the one caller in util.c (util.c:432) never does that.
- Path.Basename: requires a terminated buffer, which is what `strlen` needs. A NULL argument answers `Null`, the model of returning the NULL pointer.
- The non-Windows `#else` branches of basename and dirname (where only '/' separates) are not modelled, because the functions are compiled only under `__CYGWIN__` or `WIN32`.

## Findings

| source | as written | input that shows it | evidently intended | confidence | as-written member | corrected member |
|---|---|---|---|---|---|---|
| util.c:562 | after stripping trailing separators, dirname answers "/" when `cp <= name`, that is also when one non-separator character is left | "a/" gives "/" | "." (the parent of a one-character relative name), as basename's `cp < name` test at util.c:530 and POSIX dirname give | not executed | Path.DirnameAsWritten, Path.DirNameAsWrittenCounterexample | Path.Dirname, Path.DirNameOf |
