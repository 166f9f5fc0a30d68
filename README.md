# BPE-Compression in Dafny

This project models the byte-pair compressor `XIPCompressor`
(`compressor.py`) and proves properties of the model.

**Compression.** The compressor reads a byte string and makes passes over a working buffer. Each pass:

1. counts the overlapping adjacent pairs of the buffer in an insertion-ordered dictionary;
2. allocates a code octet that is neither a code already in use nor an octet of the input;
3. records `code -> most frequent pair` in the code table;
4. replaces the pair with the code, without overlaps, as `bytes.replace` does.

The passes stop after a pass whose pair occurred only once, or when no code is left to allocate.

**The artifact.** The artifact is written in three parts:

- one count octet `n`;
- the final buffer;
- one three-octet record `code, first, second` per table entry, in insertion order.

**Decompression.** The decompressor rebuilds the table from the last `3n` octets. It then replaces every payload octet with its recursive expansion.

**Modules.** Each module is one file and follows one part of the source:

| module | file | contents |
|---|---|---|
| `Octets` | `octets.dfy` | octets, pairs, `set(data)` |
| `Dict` | `dict.dfy` | Python's insertion-ordered `dict`, as a sequence of entries |
| `CodeTable` | `codetable.dfy` | the table, `__get_original`, the trailer format |
| `Frequency` | `frequency.dfy` | the pair-count loop and `__max_pair` |
| `Allocator` | `allocator.dfy` | `__get_replacement` |
| `Decoder` | `decoder.dfy` | `__reconstruct_dict`, `decompress_binary` |
| `Encoder` | `encoder.dfy` | the passes of `compress_binary` and the serialisation |

**Functions and methods.** The source's loops are methods with loop invariants:

- the three loops of `compress_binary`: the pass loop (line 149, `Encoder.Compress`), the pair-counting loop (lines 153-163, `Frequency.CountPairs`) and the serialisation loop (lines 186-187, `Encoder.WriteArtifact`);
- `__max_pair`;
- `__reconstruct_dict`;
- `decompress_binary`.

Each method's result, or state, is tied in its `ensures` to a specification function. The properties are proved about those functions. The recursive `__get_original` and `__get_replacement` are functions.

**Main result.** `Encoder.RoundTrip`, together with the postcondition of `Encoder.Compress`: every artifact the compressor writes is readable by the decompressor and decodes to exactly the input. The proof rests on the invariant that the working buffer expands through the table to the input. The model proves the following:

- Every pass keeps that invariant.
- Every pass appends exactly one fresh code.
- Every pass strictly shortens the buffer, which is why the loop ends.
- An encoder-built table never refers to a code that is not yet defined, so its expansion never recurses without end.

**Edge cases of the source.**

- **Inputs shorter than two octets.** On 0 or 1 octets `pairs` is empty, so `__max_pair` returns the unbound `max_pair` (compressor.py:102) and `compress_binary` raises. `Encoder.Compress` requires at least two octets.
- **The payload bound.** The decoder ends the payload at `len(compressed_bytes) - 3 * len(reconstruction_dict)` (line 207), counting the entries of the reconstructed table rather than reading the count octet again.

## Model

| member | source | states |
|---|---|---|
| Frequency.OccurrencesArePositions | compressor.py:153-157 | a pair's count is the number of positions i < len - 1 with data[i], data[i+1] equal to the pair; overlapping occurrences all count |
| Frequency.FreqOfSnoc | compressor.py:159-163 | counting one more pair increments its entry in place if present, else appends it with count 1 |
| Frequency.CountPairs | compressor.py:150-163 | the counting loop builds exactly the pair-frequency dictionary of the buffer |
| Frequency.FrequenciesMeaning | compressor.py:150-163 | the dictionary's keys are exactly the occurring pairs, each once, in order of first occurrence, each mapped to its number of occurrences; it is non-empty once the buffer has two octets |
| Frequency.LastMax | compressor.py:95-101 | the index chosen is the last one whose count is the largest |
| Frequency.LastMaxUnique | compressor.py:95-101 | at most one index is the last of largest count, so the choice is determined |
| Frequency.MaxPair | compressor.py:84-102 | the scan with `>=` returns the entry at the last index of largest count, and no count exceeds the one returned |
| Frequency.MostFrequentPair | compressor.py:171 | the selected pair occurs, occurs at least as often as any pair, and among equally frequent pairs it is the one whose first occurrence is last |
| Allocator.TableBound | compressor.py:45-47 | fresh codes and input octets together never exceed 256 |
| Allocator.SmallestFree | compressor.py:52-58 | the search returns an octet that is neither a code nor an input octet, and none smaller is; None only when no such octet exists |
| Allocator.Allocate | compressor.py:32-60 | allocation fails exactly when the table holds 256 - len(set(raw)) codes; otherwise the octet is not a key and not in the input |
| Allocator.AddCode | compressor.py:174 | storing a fresh code appends one entry and keeps the codes unique and disjoint from the input |
| Dict.Put | compressor.py:174 | `d[k] = v`: afterwards k maps to v; an existing key is updated in place, a new one appended; unique keys stay unique |
| Dict.PutKeepsOthers | compressor.py:174 | `d[k] = v` leaves every other key present with its position and value, and adds no key but k |
| CodeTable.ExpandSettles | compressor.py:76-82 | in a table whose codes refer only to earlier codes, the recursion stops after at most rank-many nested lookups, and more budget changes nothing |
| CodeTable.GetOriginalUnfolds | compressor.py:62-82 | on such a table `__get_original` always returns; a non-code returns itself and a code returns the expansion of its first component followed by that of its second |
| CodeTable.ExpandAllSucceeds | compressor.py:210-213 | on such a table the expansion of every payload succeeds |
| CodeTable.ExpandAllAppend | compressor.py:210-213 | expanding a concatenation is concatenating the expansions |
| CodeTable.ExpandFresh | compressor.py:174 | adding a code that is not yet a key and not a component of any entry leaves the expansion of every other octet unchanged |
| CodeTable.Artifact | compressor.py:182-187 | the artifact is one count octet, the buffer and three octets per entry |
| CodeTable.Records | compressor.py:117-122 | reading k records builds a table of at most k entries with unique keys |
| CodeTable.RecordsOfSerialize | compressor.py:186-187 | reading back the trailer of a table with unique keys gives the same table, in the same order |
| Decoder.TableChunk | compressor.py:115 | the slice `data[-3n:]`, the whole artifact when n is 0, holds at least 3n octets |
| Decoder.ReconstructTable | compressor.py:104-124 | the loop builds the table read from the n trailer records |
| Decoder.DecodeArtifact | compressor.py:206-207 | an artifact written from a table with unique keys parses back to exactly that table and that payload |
| Decoder.ExpandStep | compressor.py:210-213 | each step of the expansion loop extends the decoded prefix by one octet's expansion, and a failure fails the whole |
| Decoder.Decompress | compressor.py:191-215 | the decoder returns the concatenated expansions of the payload octets, or None when an expansion recurses without end |
| Encoder.ReplaceLength | compressor.py:177-179 | replacing never lengthens the buffer and removes at most every other octet |
| Encoder.ReplaceShrinks | compressor.py:177-179 | if the pair occurs, the buffer gets strictly shorter |
| Encoder.ReplaceOctets | compressor.py:177-179 | every octet afterwards is an old octet or the code |
| Encoder.ReplaceRemovesPair | compressor.py:177-179 | a code that is neither octet of the pair leaves no occurrence of the pair |
| Encoder.ReplaceExpands | compressor.py:174-179 | replacing the pair with a code that expands to the pair keeps the buffer's expansion |
| Encoder.Selected | compressor.py:171 | the selected entry's count is the pair's number of occurrences, at least one, and no pair occurs more often |
| Encoder.Pass | compressor.py:149-180 | a pass fails exactly on code exhaustion; otherwise it appends one entry, keeps codes fresh, strictly shortens the buffer, and leaves at least two octets when the pair occurred more than once |
| Encoder.GetOriginalAfterAdd | compressor.py:174 | after a pass adds its code, every input octet and older code expands as before |
| Encoder.PassKeepsInv | compressor.py:149-180 | every pass keeps the invariant: fresh codes that refer only to earlier codes, and a buffer that expands to the input |
| Encoder.PassMeaning | compressor.py:165-179 | a pass records a fresh code for a pair occurring `last_pair_frequency` >= 1 times, as often as any pair, and after the replacement that pair no longer occurs |
| Encoder.Encode | compressor.py:149-180 | the loop only appends codes, and it ends with a last frequency of 1 or with all codes used |
| Encoder.EncodeKeepsInv | compressor.py:149-180 | the invariant holds when the loop ends |
| Encoder.Start | compressor.py:145-147 | the initial state, the input and an empty table, satisfies the invariant |
| Encoder.TableFits | compressor.py:182 | the table never holds more than 255 codes, so its length fits the count octet |
| Encoder.Compressed | compressor.py:182-189 | the artifact's length is 1 + final buffer + 3 per code |
| Encoder.RoundTrip | compressor.py:126-215 | the decoder can read every artifact the encoder writes, and it decodes to exactly the input |
| Encoder.WriteArtifact | compressor.py:182-189 | the serialisation loop writes the count octet, the buffer and every entry's record in order |
| Encoder.Compress | compressor.py:144-189 | the loop's artifact is the one Compressed describes, and it decodes to the input |
| Encoder.CompressAAA | compressor.py:144-189 | "AAA" compresses to 02 01 00 41 41 01 00 41 |

## Left out

- File I/O: `compress_binary` takes the input octets rather than a file name, and `Compress` starts after `file_binary.read()`.
- Allocator.Allocate: the source draws random octets and retries. The model returns the smallest free octet, which is one of the values the draw can return. The exact codes, and so the worked example, are for this choice.
- Encoder.Encode: does not model the early stop caused by the source's retry recursion. Each rejected draw at lines 54-58 is one more nested call of `__get_replacement`; after about a thousand rejections in a row Python raises RecursionError, which line 167 catches like the exhaustion exception, so line 169 breaks out of the loop while free codes remain. A run of the source can therefore end with `last_pair_frequency != 1` and fewer than 256 - len(set(raw)) codes, which the third ensures of `Encoder.Encode` excludes for the deterministic allocator. The artifact written after such an early stop is still a valid one (it is the state after fewer passes, which also satisfies the invariant), so the round trip is unaffected.
- The `print(e)` of the exhaustion message. The `raise`/`except` pair is modelled as allocation returning None and the loop breaking.
- The class singleton: the shared `__lookup_table` and `__raw_file_data` fields of the one instance. Each compression starts from an empty table. Compressing twice on one instance without constructing it again would keep the first table; the model does not capture that.
- Encoder.Compress: requires at least two input octets. On shorter input the source fails at line 171 (unbound `max_pair`).
- Decoder.Decompress: requires a Framed artifact, meaning a count octet and at least 3n octets. On shorter data the source raises an index error, and malformed artifacts are not modelled.
- CodeTable.GetOriginal: nested lookups are capped at the table's size, and None stands for the RecursionError of a cyclic table. The model does not prove that None implies a cycle. It proves only that tables the encoder builds never give None.
- `int.to_bytes` overflow at line 182 is not modelled as an error path, because `Encoder.TableFits` proves the table never exceeds 255 entries.
