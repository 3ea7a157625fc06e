# Fingerprint database of the image import processor

This project models in Dafny the fingerprint database kept by `ImageImportProcessor`
(`image_input.py`). Each imported image gets a perceptual fingerprint: three hash strings
(average, perceptual and difference hash) joined with `_`. The database maps a short
fingerprint id to a record holding:

- the first fingerprint seen under that id;
- the original file name and first-seen time;
- every location the image was seen at;
- a count of sightings.

The model covers five things:

- how a fingerprint is built and split back into its components (module `Scoring`, with
  Python's `str.split`/`str.join` in module `Text`);
- `calculate_fingerprint_similarity`: the per-component Hamming score over `zip`, averaged,
  with the caught division by zero (module `Scoring`, `real` arithmetic);
- `find_similar_images`: a linear scan keeping scores at or above the threshold, then Python's
  stable descending sort (module `Search`);
- `add_to_fingerprint_database`, which creates or updates a record, and clearing the database
  (module `Store`);
- `check_image_format`: `os.path.splitext` then a case-insensitive lookup in the six supported
  extensions (module `Formats`).

The database is `Store.Db`, an insertion-ordered sequence of (id, record) entries whose ids are
distinct. This is how a Python dict iterates its keys. The hash algorithms, the MD5 digest and the
clock are inputs.

The model follows the code, including four behaviours a reader might not expect:

- Fingerprints of different shapes are still compared: `zip` drops extra components and extra
  characters, and the distance is divided by the longer length. So a component that is a prefix
  of its partner scores 100 (`Scoring.FullScore`, `Scoring.PrefixScoresFull`), and threshold 100
  does not mean "identical" (`Search.PerfectThreshold`).
- Equal scores keep database order, because Python's sort is stable; neither first-seen time nor
  id breaks ties (`Search.SortOrdered`, `Search.FindSimilar`).
- A fingerprint with an empty component scores 0 against itself (`Scoring.SimilarityReflexive`).
  An empty component comes from two adjacent separators or a separator at either end; the empty
  fingerprint `""` is itself a single empty component with no separator.
- Any threshold is accepted: 0 or below returns every entry
  (`Search.NonPositiveThresholdKeepsAll`), and above 100 returns nothing
  (`Search.ThresholdAboveHundredFindsNothing`).

## Model

| member | source | states |
|---|---|---|
| `Text.Split` | image_input.py:157 | `split('_')` yields at least one piece and no piece contains the separator |
| `Text.JoinSplit` | image_input.py:157 | joining the pieces of a split with the separator gives back the original string |
| `Text.SplitJoin` | image_input.py:157 | splitting the join of separator-free pieces gives back exactly those pieces |
| `Scoring.ComposeComponents` | image_input.py:148 | a fingerprint built by `Compose` from three separator-free hashes joined with `_` splits back into exactly those three hashes |
| `Scoring.Mismatches` | image_input.py:163 | the distance is the number of positions below the shorter length where the components differ, so at most the shorter length |
| `Scoring.MismatchesSymmetric` | image_input.py:163 | the distance does not depend on argument order |
| `Scoring.MismatchesZero` | image_input.py:163 | the distance is 0 exactly when the two components agree on their common prefix length |
| `Scoring.PairScore` | image_input.py:163-165 | a pair fails (division by zero) exactly when both components are empty; otherwise its score lies in [0, 100] and is 100 exactly when the components agree on their overlap |
| `Scoring.PairScores` | image_input.py:161-166 | the score list fails exactly when some pair lined up by `zip` is empty on both sides; otherwise it has one score per `zip` pair, in order |
| `Scoring.PartsSimilarity` | image_input.py:161-170 | the averaged score of two component lists lies in [0, 100], and is 0 when an aligned pair is empty on both sides |
| `Scoring.Similarity` | image_input.py:154-170 | the fingerprint similarity lies in [0, 100], and is 0 when an aligned component pair is empty on both sides |
| `Scoring.SimilaritySymmetric` | image_input.py:157-168 | `sim(a, b) == sim(b, a)` for all fingerprints |
| `Scoring.SimilarityReflexive` | image_input.py:161-168 | `sim(f, f)` is 100 when every component of `f` is non-empty, and 0 otherwise |
| `Scoring.FullScore` | image_input.py:161-168 | the score is 100 exactly when no aligned pair is empty on both sides and every aligned pair agrees on its overlap |
| `Scoring.ExtraComponentsIgnored` | image_input.py:161 | components beyond the shorter component list do not affect the score |
| `Scoring.ComposedSimilarity` | image_input.py:161-168 | for three-hash fingerprints the score is the unweighted mean of the three per-hash scores |
| `Scoring.PrefixScoresFull` | image_input.py:161-165 | two different fingerprints (`a_b_c` and `ab_b_c_d`) score exactly 100 |
| `Store.FpId` | image_input.py:268 | the record id is the first 16 characters of the hex digest, or all of it when shorter |
| `Store.Find` | image_input.py:270 | the lookup finds the first entry with the id, or reports that no entry has it |
| `Store.AddFingerprint` | image_input.py:266-286 | a new id gets a record appended at the end, holding the fingerprint, file name, first-seen time, one location and count 1. An existing id keeps its position, fingerprint, file name and first-seen time, gets the location appended and its count raised by 1. Every other entry is unchanged. The id set grows by exactly this id, and both `count == \|locations\|` and "keyed by own fingerprint" are preserved |
| `Store.Clear` | image_input.py:598 | after clearing no id is present |
| `Search.Scan` | image_input.py:174-184 | the scan holds exactly the entries scoring at least the threshold, each as its own match, in database order |
| `Search.SortDescending` | image_input.py:187 | the sort returns a permutation of its input in non-increasing order of similarity |
| `Search.SortOrdered` | image_input.py:187 | sorting a list that is in database order puts equal scores in database order (stability) |
| `Search.FindSimilar` | image_input.py:172-188 | the result holds exactly the entries whose score is at least the threshold, each with its score and record, best score first and database order among ties |
| `Search.OnlyQueryResult` | image_input.py:172-188 | any list that meets that description equals the result, so the description fixes the result |
| `Search.QueryIdsDistinct` | image_input.py:175-184 | no id appears twice in a result |
| `Search.NonPositiveThresholdKeepsAll` | image_input.py:175-179 | with a threshold of 0 or below every entry is returned |
| `Search.ThresholdAboveHundredFindsNothing` | image_input.py:179 | with a threshold above 100 nothing is returned |
| `Search.PerfectThreshold` | image_input.py:179 | at threshold 100 an entry is returned exactly when its components agree with the query's on every aligned overlap and no aligned pair is empty on both sides |
| `Search.EmptyDatabaseFindsNothing` | image_input.py:174-188 | an empty database gives an empty result |
| `Search.ClearForgets` | image_input.py:598 | after clearing no query finds anything, and the next addition creates a single record with count 1 |
| `Search.RepeatedSighting` | image_input.py:270-286 | a new fingerprint is not found before it is recorded. After one addition it is found with score 100 and count 1. After a second addition its record has count 2 and both locations in order |
| `Formats.SplitExt` | image_input.py:36 | root plus extension is the path, and a non-empty extension starts at a dot of the last path component preceded there by a non-dot character, with no later dot |
| `Formats.SplitExtComplete` | image_input.py:36 | the extension is non-empty exactly when the path has one, and then it is that one |
| `Text.LowerNormalForm` | image_input.py:37 | `.lower()` leaves no upper-case ASCII letter, changes exactly the upper-case letters and keeps every other character, so applying it twice is the same as once and a string is its own lower case exactly when it has no upper-case letter |
| `Formats.CheckImageFormat` | image_input.py:34-37 | a path is accepted exactly when it has an extension whose lower-cased text is one of the six supported extensions |
| `Formats.CheckImageFormatIgnoresCase` | image_input.py:37 | a path and its `Text.Lower` form get the same verdict |
| `Formats.NoExtensionRefused` | image_input.py:34-37 | a path without an extension is refused |
| `Formats.AcceptsUpperCaseExtension` | image_input.py:17 | `holiday.JPG` is accepted |
| `Formats.RefusesDotFile` | image_input.py:34-37 | `.png`, a name made only of an extension, is refused |

## Left out

- Image decoding and colour conversion (lines 49-56), and the float-to-8-bit rescale (lines 138-139): library calls on pixel arrays.
- The average, perceptual and difference hash algorithms (lines 143-145). Their outputs are the string arguments of `Scoring.Compose`.
- The MD5 digest (line 268). It is the `hexDigest` function argument of `Store.FpId` and `Store.AddFingerprint`.
- The SHA-256/base64 image hash (lines 129-132) and the `loaded_images` session cache: neither feeds the database.
- A failed fingerprint generation returning `None` (lines 150-152). Fingerprints are strings here. With `None`, the similarity would be 0 through the caught exception, and an addition would raise.
- `datetime.now()`: the two clock readings in `add_to_fingerprint_database` are the `firstSeen` and `stamp` arguments.
- Search.Match: a hit holds a copy of its record, while the code's `'data'` (line 183) is the live record dict, so a later `add_to_fingerprint_database` (lines 280-286) changes the `count` and `locations` a caller still holds. This does not change what `load_image_from_path` prints: it reads only `original_filename` and `first_seen` (lines 93-94), and `Store.AddFingerprint` keeps both fields of an existing record unchanged.
- Saving and loading the database as JSON, directory creation, and renaming a corrupt file to `.backup` (lines 288-327): file I/O. Records are typed here, so loaded data that breaks the record schema is not modelled.
- `save_image` with PNG/EXIF metadata (lines 210-264), the file dialog, the interactive menu (including the `yes` confirmation around clearing), and all printed output.
- Scoring.Similarity: scores are exact `real` numbers, so floating-point rounding of `distance / max_len` and of the mean is not modelled.
- Formats.SplitExt: only `/` separates path components (POSIX `os.path`); the Windows `\` separator is not modelled.
- Text.Lower: only ASCII letters are lower-cased. The only non-ASCII characters whose lower case contains ASCII letters are KELVIN SIGN (to `k`) and CAPITAL I WITH DOT ABOVE (to `i` plus a combining dot). Neither can complete a supported extension, so the verdict of `check_image_format` is unaffected.
