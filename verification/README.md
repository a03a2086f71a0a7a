# Goroutine leak detection and salted AES-CBC framing, in Dafny

This project models two small Go packages from `thinkgos/studyweb`. It
proves properties about each.

**`leaktest`** detects goroutines a test leaves running:

- At setup, `AfterTest` captures a snapshot of the "interesting" goroutines. It takes a full stack dump and splits it into blank-line-separated records. It drops records that belong to the test harness or the runtime, and it keys each remaining record by the id in its header (`ExtractGID`).
- At teardown, the closure `AfterTest` returns does the following:
  - It does nothing if the test already failed.
  - Otherwise it diffs fresh snapshots against the baseline (`diffGoroutines`) until the diff is clean or a five-second deadline has passed.
  - If the deadline passes with leaks still present, it reports one error. The error lists the leaked stacks in sorted order.

The model is in `leaktest.dfy` (module `LeakTest`), plus the two modules below:

- `text.dfy` (module `Text`): the `strings`, `bytes` and `sort` operations it relies on.
- `strconv.dfy` (module `Strconv`): `strconv.ParseInt` for base 10 and 64 bits.

The dump text, the later snapshots, the deadline test at each check, and `t.Failed()` are all inputs. Reported errors are the methods' results.

**`secret`** encrypts with AES-128 in CBC mode:

- Plaintexts are padded to whole 16-byte blocks in the PKCS #7 style (section 6.3 of RFC 5652).
- The AES key is the MD5 digest of the user's key.
- The IV is the MD5 digest of the salt followed by the key.
- Decryption rejects input that is not whole blocks before decrypting. After decrypting, it strips the padding that the last byte announces.

The model is in `secret.dfy` (module `Secret`). MD5 and CBC encryption/decryption are function-valued parameters (`Primitives`). The round trip is proved under two stated assumptions: CBC decryption inverts encryption, and both preserve the length of whole-block data.

In two places the model follows what the code does rather than what a reader of the package might expect:

- A record whose id token is not a number is kept under id 0. It is not dropped. The exception is a token whose leading digits already exceed 2^64-1 before its first non-digit: `strconv.ParseInt` reports a range error there, so `goroutine 99999999999999999999x [x]:` is kept under `MaxInt64`.
- An id token too large for int64 is kept under the clamped value (`MaxInt64` or `MinInt64`), because `strconv.ParseInt` returns that value alongside its range error. It is not mapped to 0.

## Model

| member | source | states |
|---|---|---|
| Text.Index | leaktest/leak.go:97-107 | `strings.Index`: returns -1 or a position where the pattern occurs. |
| Text.IndexLeftmost | leaktest/leak.go:97-107 | `strings.Index` returns -1 only if the pattern occurs nowhere, and there is no occurrence before the position it returns. |
| Text.Contains | leaktest/leak.go:97-107 | `strings.Contains`: `Index` is not -1. `OccursAtContains` and `IndexLeftmost` make it true exactly when the pattern occurs somewhere. |
| Text.OccursAtContains | leaktest/leak.go:97-107 | An occurrence at any position makes `Contains` true. |
| Text.HasPrefix | leaktest/leak.go:84 | `strings.HasPrefix`: the string starts with the prefix. A definition. |
| Text.IndexByte | leaktest/leak.go:67 | `bytes.IndexByte`: returns -1 exactly when the character is absent. Otherwise it returns the position of its first occurrence. |
| Text.Split | leaktest/leak.go:78 | `strings.Split` with a non-empty separator: the pieces between the leftmost non-overlapping occurrences, at least one piece. `SplitJoin`, `SplitPiecesAvoidSeparator` and `SplitPiecesLeftmost` together state what the pieces are. |
| Text.SplitJoin | leaktest/leak.go:78 | Splitting the dump on blank lines loses nothing: joining the records back with the separator gives the dump. |
| Text.SplitPiecesAvoidSeparator | leaktest/leak.go:78 | No record produced by the split contains the separator. |
| Text.SplitPiecesLeftmost | leaktest/leak.go:78 | Every cut is at the leftmost occurrence: no occurrence of the separator starts inside a piece that has a successor, even one that overlaps the separator after it. With a self-overlapping separator such as a blank line, this fixes where the dump is cut. |
| Text.PrefixBeforeIndex | leaktest/leak.go:78 | The text before the leftmost separator does not contain the separator. |
| Text.IsSpace | leaktest/leak.go:83 | `unicode.IsSpace`: the Unicode White_Space characters. A definition. |
| Text.TrimSpace | leaktest/leak.go:83 | `strings.TrimSpace`: skip white space from the front, then from the back down to the front position, and keep the slice between. `TrimSpaceDropsSpace` states what it keeps. |
| Text.SkipSpaceStops | leaktest/leak.go:83 | The front scan of `strings.TrimSpace` passes over white space only. It stops at the end or at a character that is not white space. |
| Text.SkipSpaceBackStops | leaktest/leak.go:83 | The back scan passes over white space only. It stops at the front scan's position or after a character that is not white space. |
| Text.TrimSpaceDropsSpace | leaktest/leak.go:83 | The stack is a contiguous part of the record's body with only white space around it. It neither starts nor ends with white space. |
| Text.LessEq | leaktest/leak.go:166 | Go's `<=` on strings: lexicographic, a proper prefix first. Its order laws are the next rows. |
| Text.LessEqTotal | leaktest/leak.go:166 | Go's string order is total. |
| Text.LessEqTransitive | leaktest/leak.go:166 | Go's string order is transitive. |
| Text.LessEqAntisymmetric | leaktest/leak.go:166 | Go's string order is antisymmetric. |
| Text.Insert | leaktest/leak.go:166 | Inserting into a sorted list keeps it sorted and adds exactly that element. |
| Text.Sort | leaktest/leak.go:166 | `sort.Strings` yields a sorted permutation of its input. |
| Text.SortedUnique | leaktest/leak.go:166 | Two sorted lists with the same elements are equal, so the sorted result does not depend on the input order. |
| Strconv.Scan | leaktest/leak.go:68 | The digit loop of `ParseUint` never yields a value above 2^64-1. |
| Strconv.ParseUint | leaktest/leak.go:68 | `strconv.ParseUint(u, 10, 64)`: the empty string is a syntax error, anything else goes through the digit loop `Scan`. |
| Strconv.ParseInt | leaktest/leak.go:68 | With the error discarded, the result is always within int64 range. |
| Strconv.ScanDigits | leaktest/leak.go:68 | Digits whose value fits in 64 bits are read as that value. |
| Strconv.ScanStopsAtNonDigit | leaktest/leak.go:68 | Digits that fit in 64 bits, followed by a non-digit, are a syntax error. |
| Strconv.ParseIntOfDigits | leaktest/leak.go:68 | A decimal token within int64 range parses to its value. |
| Strconv.ParseIntOfNegatedDigits | leaktest/leak.go:68 | A minus sign before such a token negates its value. |
| Strconv.ParseIntSaturates | leaktest/leak.go:68 | A decimal token above MaxInt64 gives MaxInt64. |
| Strconv.ParseIntSyntaxErrorIsZero | leaktest/leak.go:68 | A token gives 0 when it is an optional sign, then digits whose value is at most 2^64-1, then a non-digit. A lone sign and the empty token also give 0. |
| LeakTest.ExtractGID | leaktest/leak.go:65-70 | Defined only when Go would not panic: at least ten characters, then a later space. The id is always within int64 range. |
| LeakTest.ExtractGIDReadsToken | leaktest/leak.go:65-69 | The id is `ParseInt` of exactly the token between the first ten characters and the next space. |
| LeakTest.ExtractGIDOfHeader | leaktest/leak.go:65-69 | The header `goroutine N ...` with a decimal N in int64 range gives N. |
| LeakTest.ExtractGIDOfNonNumber | leaktest/leak.go:65-69 | A header whose token does not start with a digit or a sign gives id 0. |
| LeakTest.Body | leaktest/leak.go:79-83 | `strings.SplitN(g, "\n", 2)[1]`: what follows the first newline of a record that has one. |
| LeakTest.BodyAfterFirstLine | leaktest/leak.go:79-83 | A record with a newline is its header line, which holds no newline, then a newline, then the body. |
| LeakTest.Interesting | leaktest/leak.go:79-109 | The filter: a record survives every `continue` exactly when it has a line after its header and its trimmed stack is non-empty, does not start with `testing.RunTests`, and contains none of the eleven noise patterns. |
| LeakTest.Records | leaktest/leak.go:78 | The dump split on blank lines. |
| LeakTest.Capture | leaktest/leak.go:78-110 | The snapshot of a dump: `Collect` over its records with the filter and the id. The `Capture` lemmas below state its contents. |
| LeakTest.InterestingGoroutines | leaktest/leak.go:74-113 | The filter loop builds exactly the snapshot of the dump (`Capture`). |
| LeakTest.CollectValues | leaktest/leak.go:78-110 | Every stored value is a record of the dump, unchanged. It passed the filter and is stored under its own id. |
| LeakTest.CollectKeys | leaktest/leak.go:78-110 | Every record that passes the filter has its id among the keys. |
| LeakTest.CollectLastWins | leaktest/leak.go:110 | Of the kept records that share an id, the last one is stored. |
| LeakTest.CaptureContents | leaktest/leak.go:78-110 | The keys are exactly the ids of the records that pass the filter. Every value is such a record under its own id. The records rejoin to the dump. |
| LeakTest.CaptureKeyedByExtractGID | leaktest/leak.go:110 | When every kept record has a header Go can slice, every stored record sits under `ExtractGID` of itself. |
| LeakTest.CaptureLastWins | leaktest/leak.go:78-110 | When several kept records of a dump share an id, the snapshot holds the last of them. |
| LeakTest.ValuesOfMap | leaktest/leak.go:157 | Walking a map yields one value per key and every value. |
| LeakTest.SortCollected | leaktest/leak.go:157-166 | Whatever order the map is walked in, sorting the collected stacks gives the same list. That list is empty exactly when nothing leaked. |
| LeakTest.CollectLeaks | leaktest/leak.go:156-161 | Walking the current map in any order collects exactly the stacks of the ids the base lacks, each once. |
| LeakTest.DiffReportOf | leaktest/leak.go:162-166 | Whatever order the stacks were collected in, the result is nil when none were collected and otherwise built from the same sorted list. |
| LeakTest.Entry | leaktest/leak.go:169 | `fmt.Sprintf("Leaked goroutine: %v\n\n", g)`: `%v` of a string is the string itself. |
| LeakTest.WriteEntries | leaktest/leak.go:167-170 | The builder ends up holding the entries of the sorted stacks, in order, back to back. |
| LeakTest.DiffGoroutines | leaktest/leak.go:155-172 | The walk, the sort and the builder together produce exactly `DiffReport`. That is nil without leaks, and otherwise the entries of the sorted leaked stacks, concatenated. |
| LeakTest.LeakedStacks | leaktest/leak.go:156-166 | The leaked list is sorted and has one element per current id missing from the base. Its elements are exactly the stacks of those ids. |
| LeakTest.ValuesCount | leaktest/leak.go:157 | Walking a map yields each stack as many times as there are keys holding it. |
| LeakTest.LeakedMultiplicity | leaktest/leak.go:156-166 | Each stack occurs in the sorted leaked list exactly once per current id, missing from the base, that holds it. With `LeakedStacks` this makes the list a sorted permutation of the leaked stacks. |
| LeakTest.DiffCleanIff | leaktest/leak.go:158-164 | No error exactly when every current id is in the base. |
| LeakTest.DiffIgnoresBaseStacks | leaktest/leak.go:158 | Only the base's ids matter, never its stack texts. |
| LeakTest.MessageMentions | leaktest/leak.go:168-170 | The report contains `Leaked goroutine: <stack>` followed by a blank line, for every leaked stack. |
| LeakTest.StopIndex | leaktest/leak.go:135-144 | The loop leaves at the first check whose diff is clean or whose deadline has passed. |
| LeakTest.Teardown | leaktest/leak.go:120-145 | Stated in five cases:<br>1. A test that already failed gets no diff and no error.<br>2. Otherwise the loop takes diffs up to and including the first clean or past-deadline check.<br>3. It reports that check's error, if any.<br>4. It reports at most one error.<br>5. It reports an error only once the deadline has passed. |
| LeakTest.AfterTest | leaktest/leak.go:118-146 | The errors are the teardown's errors against the snapshot of the setup dump. |
| LeakTest.CleanBeforeDeadline | leaktest/leak.go:135-143 | A leak that clears before the deadline is never reported. |
| LeakTest.PersistentLeakReported | leaktest/leak.go:136-141 | A goroutine that never ends and is not in the baseline is reported exactly once, after the deadline. The report carries its full stack. |
| Secret.Pad | secret/secret.go:24-28 | Padding is covered by three statements:<br>1. The padded length is a multiple of the block size, and 1 to `size` bytes are added.<br>2. The data is kept as a prefix.<br>3. For block sizes below 256, each added byte holds the number of bytes added. |
| Secret.PadLength | secret/secret.go:25 | `size - len % size` is between 1 and `size`, and it tops the length up to a multiple of `size`. |
| Secret.Unpad | secret/secret.go:30-37 | Fails exactly when the last byte exceeds the length. Otherwise it drops that many bytes from the end and keeps the rest. |
| Secret.UnpadPad | secret/secret.go:24-37 | Unpadding undoes padding for every block size below 256. |
| Secret.UnpadIgnoresEarlierPadBytes | secret/secret.go:32-36 | Only the last byte is read. `x ++ [b, 2]` unpads to `x` whatever `b` is. |
| Secret.UnpadZero | secret/secret.go:32-36 | A last byte of 0 strips nothing and is not an error. |
| Secret.Secret.Key | secret/secret.go:40 | The AES key: `md5.Sum(key)`. The same derivation appears at secret/secret.go:53. |
| Secret.Secret.IV | secret/secret.go:41 | The IV: `md5.Sum` of the salt followed by the key. The same derivation appears at secret/secret.go:54. |
| Secret.Secret.Encrypt | secret/secret.go:39-51 | The ciphertext is as long as the padded plaintext: whole blocks, 1 to 16 bytes longer than the plaintext. |
| Secret.Secret.Decrypt | secret/secret.go:52-66 | Fails with "input not full blocks" exactly when the input is not whole blocks. Whole-block input is decrypted under the derived key and IV and then unpadded, so the only other error is the unpadding one. A successful result is no longer than the input. Empty input is excluded, because Go panics on it. |
| Secret.EncryptDecrypt | secret/secret.go:39-66 | Decrypt returns the plaintext given to Encrypt, for the same salt and key, given the two cipher assumptions. |
| Secret.DecryptChecksBlocksFirst | secret/secret_test.go:68-77 | A partial block fails with "input not full blocks" whatever the cipher would produce, so the check comes before any decryption. |
| Secret.EncryptFourBytes | secret/secret_test.go:22-30 | A 4-byte plaintext encrypts to 16 bytes. |

## Left out

- `runtime.Stack` is not modelled. The dump is an input. Go writes it into a fixed 2 MiB buffer and silently truncates a longer dump. The model does not capture that truncation.
- The clock is not modelled. `time.Now`, the five-second deadline and the 50 ms sleep become one input per check: whether the deadline had passed at that check. The last check supplied must be past the deadline, since real time keeps running.
- `recover` and `panic` are not modelled. The re-raise of a test's panic happens before anything the model covers.
- `testing.TB` is not modelled. `t.Failed()` is a boolean input, and `t.Error` becomes the returned list of errors.
- `fmt.Errorf(b.String())` treats the report as a format string. A stack containing `%` would be reformatted. The model returns the report text unchanged.
- `GetInterestedGoroutines` is only a public alias of `interestingGoroutines`, so it has no separate member.
- The ExtractGID precondition: Go panics when a kept record is shorter than ten bytes or has no later space. `InterestingGoroutines` and `AfterTest` require every kept record to have such a header (`HeadersParse`). The snapshot function `Capture` and its lemmas are total: they key such a record under 0 (`GidOf`), a case Go never reaches.
- Byte offsets versus characters: Go slices bytes, while the model slices characters. The two agree for the ASCII header `goroutine N [...]`. Invalid UTF-8 in a dump is not modelled.
- `sort.Strings` is modelled by insertion sort. Its algorithm is not modelled, because only its result matters: the unique sorted permutation.
- The internals of AES, MD5 and CBC are not modelled. They are parameters. The concrete test vectors, including the "invalid" ciphertext and its expected error, depend on them, so they are not reproduced.
- `NewSpecial` is the `Secret.Secret` datatype constructor. Go's conversion of the salt string to bytes is not modelled: the salt is bytes.
- Secret.Pad: when the caller's slice has spare capacity, Go's `append` writes the padding into the caller's backing array past `len(origData)`, where the caller of `Encrypt` can observe it. The model works on values, so that write to the caller's buffer is not modelled.
- Secret.Secret.Decrypt: the contract does not state the length of a successful result beyond `<=`. That length depends on the decrypted last byte, which only the cipher determines.
