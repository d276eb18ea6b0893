# Dataset generator: the filter-and-join loop

This project models the core of the entity-linking dataset builder in
`src/dataset_generator.py`. The builder first forms an **allow-set** of
entity ids, the union of the `qid` and `Work_of_art` columns of the
filtered-items table. It then walks the link-annotated corpus record by
record:

- A record is skipped when its page id is not in the page map. The page id
  is reported as "not found".
- A record is also skipped when its page resolves to an entity outside the
  allow-set.
- For each section of a surviving record, the builder walks the parallel
  arrays `target_page_ids` / `link_offsets` / `link_lengths`.
  - A target page the page map does not know is reported.
  - A target that resolves to an allowed entity is stored under its span
    `(offset, offset + length)`. A later link with the same span overwrites
    an earlier one.
- A section is appended as `(text, {"links": links})` only when at least one
  link survives.

Everything lives in one module, `DatasetGenerator`, in
`dataset_generator.dfy`:

- **Data.** `Section`, `Record`, `Span` and `Entry` are datatypes. A
  section's link arrays must be at least as long as its targets; the subset type
  `WellFormedSection` states that.
- **Specification.**
  - `SectionLinks` is the links dictionary of one section, defined through
    `LinksUpTo`.
  - `BuildSpec` is the whole dataset, the in-order concatenation
    (`ConcatMap`) of the records' contributions.
  - `NotFoundSpec` is the sequence of page ids reported missing.
- **Builder.** The source's nested loops become three methods, each proved
  equal to its specification function:
  - `CollectLinks` is the link loop;
  - `CollectEntries` is the section loop;
  - `Build` is the record loop.

  `GenerateDataset` chains the allow-set construction and `Build`.
- **Lemmas.** They state what the source promises about these functions:
  - which records, sections and links are dropped;
  - the span key of each link, and last-write-wins on duplicate spans;
  - output order and append-only growth;
  - that every label is allowed;
  - exactly which page ids are reported.

## Model

| member | source | states |
|---|---|---|
| DatasetGenerator.AllowSet | src/dataset_generator.py:34-35 | an entity id is in the allow-set exactly when it occurs in the qid column or in the Work_of_art column |
| DatasetGenerator.LinksUpToKeys | src/dataset_generator.py:61-74 | the spans of a section's links dictionary are exactly the spans (offset, offset + length) of the link indices whose target resolves to an allowed entity |
| DatasetGenerator.LinksUpToLastWins | src/dataset_generator.py:69-74 | a surviving link with no later surviving link of the same span is in the dictionary, under its span, with its target's entity (last write wins) |
| DatasetGenerator.LinksUpToWriter | src/dataset_generator.py:69-74 | every span in the dictionary was written by a surviving link that no later surviving link of the same span overwrote |
| DatasetGenerator.SectionLinksResolved | src/dataset_generator.py:61-74 | every key of a section's links dictionary is (link_offsets[i], link_offsets[i] + link_lengths[i]) for some index i whose target is in the page map; its value is that target's page-map image, and that image is in the allow-set |
| DatasetGenerator.SectionMissingCharacterised | src/dataset_generator.py:61-64 | a page id is reported for a section exactly when it is one of the section's targets and the page map does not know it |
| DatasetGenerator.CollectLinks | src/dataset_generator.py:59-74 | the link loop builds exactly the section's links dictionary and reports exactly its unknown targets, in link order |
| DatasetGenerator.CollectEntries | src/dataset_generator.py:58-77 | the section loop yields, in section order, one entry per section with a non-empty links dictionary, plus every section's unknown targets |
| DatasetGenerator.Build | src/dataset_generator.py:43-77 | the record loop yields exactly BuildSpec as its dataset and exactly NotFoundSpec as its diagnostics |
| DatasetGenerator.GenerateDataset | src/dataset_generator.py:34-77 | the whole run equals BuildSpec and NotFoundSpec over the allow-set of the two columns; every entry has a non-empty links dictionary; every label occurs in one of the two columns |
| DatasetGenerator.BuildSpecAppend | src/dataset_generator.py:43-48 | the dataset and the diagnostics of a concatenated record stream are the concatenations of those of its parts, so output follows record order and chunking does not change the result |
| DatasetGenerator.SkippedRecordContributesNothing | src/dataset_generator.py:49-56 | a record whose page is unknown or resolves to a disallowed entity adds no entry anywhere in the stream; it adds its own page id as the only diagnostic when the page is unknown, and no diagnostic otherwise |
| DatasetGenerator.BuildSpecPrefix | src/dataset_generator.py:43-77 | the dataset and the diagnostics of a prefix of the records are prefixes of the full ones: the builder only appends |
| DatasetGenerator.BuildSpecMembership | src/dataset_generator.py:48-77 | an entry is in the dataset exactly when it is the text and links dictionary of some section with a non-empty dictionary in some record whose page resolves to an allowed entity |
| DatasetGenerator.NotFoundSpecMembership | src/dataset_generator.py:49-64 | a page id is reported exactly when the page map does not know it and it is some record's page, or a link target in a section of a record whose page resolves to an allowed entity |
| DatasetGenerator.EntriesLabelled | src/dataset_generator.py:68-77 | every entry of the dataset has a non-empty links dictionary, and every entity in it is in the allow-set |
| DatasetGenerator.EmptyCorpus | src/dataset_generator.py:43-48 | an empty corpus yields an empty dataset and no diagnostics |
| DatasetGenerator.DisallowedTargetDropped | src/dataset_generator.py:55-77 | worked example: a link whose target resolves to a disallowed entity is dropped, and the section is kept with its remaining link |
| DatasetGenerator.DuplicateSpanLastWins | src/dataset_generator.py:69-74 | worked example: of two allowed links with the same span, the later one's entity is kept |
| DatasetGenerator.UnknownRecordPageReported | src/dataset_generator.py:49-51 | worked example: a record whose own page is unknown yields no entry, and its page id is reported once |

## Left out

- Argument parsing (lines 10-20) is command-line plumbing. The builder receives its inputs as values.
- Reading the three input files with pandas (lines 26-28) is foreign library I/O. The two columns of the filtered-items table arrive as sequences, the page map as a `map`, and the corpus as a sequence of records.
- Chunked streaming of the corpus (line 47) is not modelled: all chunks form one sequence of records. `BuildSpecAppend` states that splitting the stream does not change the result.
- Line counting and the progress bar (lines 31, 47) only report progress.
- The `print` calls are logging. The two "not found" messages (lines 50, 63) are modelled as the sequence `notFound` of page ids, in the order they are printed. The other messages (lines 25, 46, 80) are not modelled.
- Building the output path and the pickle dump (lines 79-81) are serialisation and filesystem writes. The model's output is the `dataset` sequence itself.
- The page map is an ordinary `map`. pandas `.loc` quirks are not modelled: a duplicate index entry returns a Series, and NaN values in the `Work_of_art` column are floats that land in the allow-set.
- The label dictionary `{entity: 1.0}` is modelled by its entity alone. The weight is always the constant `1.0`, so `Entry.links` maps each span to the entity.
- The order of keys in the Python `links` dict (insertion order) is not modelled: a Dafny `map` is unordered. The mapping itself is modelled, including last write wins.
- Sections whose `link_offsets` or `link_lengths` are shorter than `target_page_ids` are excluded by the subset type `WellFormedSection`, in every section of every record. This asks more than the code needs: the code reads the two arrays only at the index of a link it keeps (lines 68-74). That read happens after the unknown-target `continue` (lines 62-64), and only in records that pass lines 49-56. The model cannot express the inputs on which the source still runs with short arrays: short arrays in a record that is skipped, and short arrays at link indices that are dropped. An example of the first is a record of an unknown page, which the source only reports. An example of the second is an array too short only at an unknown target, where the source keeps the other links and reports that target. The model also does not cover the index error the source raises when a kept link's index is out of range, which ends the run before the dump. The requirement follows the input format, which gives the three arrays equal length.
- Malformed records are not modelled. The typed `Record` and `Section` datatypes cannot express a record or section with a missing or mistyped field. In the source such a field raises an error (KeyError, TypeError or AttributeError) where it is first read. Examples: `sections` at line 58 in an admitted record, `target_page_ids` at line 61, and `text` at line 77 only for a section that keeps a link. The error ends the run before the dump at line 81, so nothing is written. The model assumes every record has a page id and a list of sections, and every section has text and three link arrays of integers.
- The nested loops of lines 48-77 are split into three methods: `Build` for the record loop calls `CollectEntries` for the section loop, which calls `CollectLinks` for the link loop. Their behaviour is the same as one nested loop.
- Reading the allow-set from a pre-serialized set file is not part of this source file, so it is not modelled.
