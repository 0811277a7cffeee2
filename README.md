# go-names core, modelled in Dafny

go-names harvests Czech first names from two web sites and stores them deduplicated in a YAML file. It answers
approximate queries against that list by Levenshtein edit distance. This project models the two routines that carry the
logic, and proves what they promise.

- **Harvest (update.go).** The Centrum adapter sends every extracted token that holds no space. `runUpdate` drains the
  merged channel into a slice by appending in arrival order and stores `unique(names)` as the dataset. `unique` puts
  every string into a map used as a set and copies the keys back into a fresh slice. The key order is Go's map
  iteration order, which is unspecified.
- **Search (search.go).** For every haystack item, `search` computes the edit distance from the needle. It records the
  distance in a map keyed by item and keeps a running minimum that starts at the sentinel 100. It then prints every
  recorded item whose distance equals the minimum, and finally the minimum.

Files:

- `sequences.dfy` (module `Sequences`): the set of elements of a sequence, "no duplicates", and the lemmas about both
  that the specifications need (cardinality, distinct sequences with the same elements are permutations).
- `update.dfy` (module `Update`): `Dataset`, the Centrum filter (`Spaceless`, `ScrapeCentrum`), `Unique` and
  `RunUpdate`.
- `levenshtein.dfy` (module `Levenshtein`): the edit distance `Distance`, defined by the classic recurrence. It is proved
  equal to the least number of edits over all left-to-right edit scripts (`Script` attains it, `DistanceIsMinimal`
  bounds every script from below).
- `search.dfy` (module `Search`): `Search`, which returns the printed items in print order together with the minimum.

Go's map iteration order is modelled by an arbitrary choice (`:|`). The results are specified only as sets, plus the
absence of repeats. Two deduplications of the same input are proved to be permutations of each other.

Where the design description and the code disagree, the model follows the code:

- The description calls names non-empty and trimmed. The code neither trims nor rejects empty tokens, so any string may
  be a name here.
- The description has the deduplicator "retain first occurrences". `unique` keeps no order at all.

## Model

| member | source | states |
|---|---|---|
| `Update.Unique` | update.go:158-171 | the result has no two equal strings; a string is in the result exactly when it is in the input; its length is the number of distinct inputs, so never more than the input's; an empty input gives an empty result |
| `Update.UniqueUpToOrder` | update.go:158-171 | any two results of `unique` on the same slice are permutations of each other (the output is fixed up to map-iteration order) |
| `Update.UniqueIdempotent` | update.go:158-171 | deduplicating the output of `unique` again yields the same names, each once, as a permutation of the first output |
| `Update.RunUpdate` | update.go:136-142 | the stored dataset holds each received name exactly once and nothing else; its size is the number of distinct received names |
| `Update.ScrapeCentrum` | update.go:73-78 | what the callback sends, in document order, is exactly the filtered token sequence `Spaceless(tokens)` |
| `Update.SpacelessMembers` | update.go:75-77 | a token is sent exactly when the document holds it and it contains no space; no sent token contains a space; no more tokens are sent than extracted |
| `Update.SpacelessAppend` | update.go:73-78 | filtering preserves document order: filtering two consecutive parts is the concatenation of the filtered parts |
| `Update.SpacelessKeepsClean` | update.go:73-78 | tokens without a space are sent unchanged: a document with no spaced token is sent whole and in order |
| `Levenshtein.DistanceBounds` | search.go:13 | the distance lies between the difference of the lengths and the longer length |
| `Levenshtein.DistanceZeroIffEqual` | search.go:13 | the distance is zero exactly when the two strings are equal |
| `Levenshtein.Script` | search.go:13 | there is an edit script from `a` to `b` whose number of edits is `Distance(a, b)` |
| `Levenshtein.DistanceIsMinimal` | search.go:13 | every edit script from `a` to `b` has at least `Distance(a, b)` edits |
| `Search.Search` | search.go:9-26 | `min` is the smaller of 100 and the least distance to a haystack item; exactly the haystack items at distance `min` are printed (ties all included), each once; an empty haystack prints nothing and reports 100; if some item is closer than 100 something is printed; if the needle is in the haystack, `min` is 0 and only the needle is printed |
| `Search.ExactMatch` | search.go:13-24 | with the needle in the haystack, a minimum-respecting outcome has minimum 0 and prints exactly the needle |

## Left out

- HTTP fetching in `scrapeRodina` and `scrapeCentrum` (update.go:18-33, 51-66), and `log.Fatal` on a failure. These are network I/O and process exit.
- The windows-1250 conversion (update.go:35) and the goquery selection and text extraction (update.go:40-47, 68-74). These are foreign library calls. The Centrum filter starts from the extracted tokens. The Rodina adapter has no logic of its own beyond these calls.
- `scraper` and `fanIn` (update.go:81-129). Goroutines, unbuffered channels and the `WaitGroup` are concurrency. `RunUpdate` takes the sequence the merged channel delivered as input.
- YAML encoding, directory creation and the file write in `runUpdate` (update.go:144-155), and `loadNames` and `getStatus` in status.go. These are filesystem I/O and a foreign serialiser.
- All of main.go: the terminal UI, key bindings, spinner and styling, and the entry point.
- `levenshtein.ComputeDistance`: the library's algorithm is not part of this model. `Distance` is the mathematical definition that the library computes. The library works on runes, and a `char` stands for a rune here. Go's `strings.Contains(name, " ")` is a byte search, and for an ASCII space it agrees with a character search.
- `Search.Search`: the text formatting of `fmt.Println`/`Printf` is not modelled. The printed items are returned as a sequence in print order, and the minimum as a number.
- Output order of `unique` and print order of `search`: these follow Go map iteration, which is unspecified. Only set-level facts and the absence of repeats are stated.
