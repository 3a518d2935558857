# Recipe tokenizing pipeline, modelled in Dafny

This project models the preprocessing core of the recipe-summarization
repository (`recipe_summarization/tokenize_recipes.py`). That core:

- drops incomplete recipe records;
- builds one ingredient string per recipe from the normalized ingredients;
- tokenizes the title, ingredients and instructions, removing every `advertisement` token;
- emits (title, body) pairs in input order;
- transposes those pairs into two parallel lists;
- reshapes them into a table with `title`, `ingredients`, `instructions` and `separator` columns.

Files:

- `py_string.dfy` (module `PyString`) models the Python string operations the
  pipeline uses: `sep.join`, `s.split(c)` with a one-character separator, and
  ASCII `lower()`. It proves that `Split` and `Join` undo each other and that
  `Split` is the only separator-free decomposition.
- `tokenize_recipes.dfy` (module `Recipes`) holds the pipeline:
  - `RecipeIsComplete` is the completeness filter.
  - `FilterAds` and `TokenizeSentence` are the sentence tokenizer.
  - `GetTokenized` and `TokenizeRecipes` are the two loops over the records.
  - `MakeDataframe` is the tabulizer.
  - The specification functions are `Corpus`, `Kept` and `Unzip`, with lemmas relating them.

Modelling choices:

- The input mapping's `.values()` is a `seq<RawRecipe>`, in iteration order.
- A key of a record is `Absent`, `Null` (Python `None`) or `Present(value)`.
- The two third-party calls are function-typed fields of `Collaborators`:
  - `wordTokenize`: NLTK's `word_tokenize`, from a string to a token sequence;
  - `parseIngredientList`: `parse_ingredient_list`, which receives whatever is stored under `ingredients`.

  Nothing is assumed about either beyond being a function.
- `recipe_is_complete` does not look at `ingredients`. So a complete record
  without that key makes `r['ingredients']` raise `KeyError`, and the whole
  call fails. The model follows the code: both loops return
  `Failure(MissingIngredients)` exactly when some complete record lacks the key.
  The docstring at tokenize_recipes.py:28-31 defines completeness by title and
  instructions only.
- When no record is complete, `zip(*[])` yields the empty tuple `()`, not two
  empty lists. `Transposed.EmptyTuple` models this.
- `df['separator'] = '</>separator</>'` broadcasts a scalar. It is modelled as a
  column with one copy of the constant per row.

## Model

| member | source | states |
|---|---|---|
| `PyString.Join` | recipe_summarization/tokenize_recipes.py:44 | joining no parts gives `""`; otherwise the first part is a prefix of the result |
| `PyString.Split` | recipe_summarization/tokenize_recipes.py:102 | `split(';')` yields one more piece than there are separators, and no piece contains the separator |
| `PyString.SplitNoSeparator` | recipe_summarization/tokenize_recipes.py:102 | a string with no separator splits into the single piece that is the whole string |
| `PyString.SplitAfterPiece` | recipe_summarization/tokenize_recipes.py:102 | splitting `p + sep + t` with separator-free `p` gives `p` followed by the pieces of `t` |
| `PyString.JoinSplit` | recipe_summarization/tokenize_recipes.py:102 | joining the pieces of `s.split(c)` with `c` gives back `s` exactly |
| `PyString.SplitJoin` | recipe_summarization/tokenize_recipes.py:102 | splitting the join of one or more separator-free pieces gives back those pieces |
| `PyString.SplitIsUnique` | recipe_summarization/tokenize_recipes.py:102 | for one or more separator-free pieces: they are `s.split(c)` if and only if their join is `s` |
| `PyString.LowerChar` | recipe_summarization/tokenize_recipes.py:17 | each upper-case ASCII letter maps to the matching lower-case letter (code point shifted from `'A'..'Z'` to `'a'..'z'`); every other character is unchanged |
| `PyString.ToLower` | recipe_summarization/tokenize_recipes.py:17 | lower-casing keeps the length and lower-cases each character independently |
| `PyString.ToLowerIdempotent` | recipe_summarization/tokenize_recipes.py:17 | lower-casing twice equals lower-casing once; no upper-case ASCII letter remains |
| `Recipes.RecipeIsComplete` | recipe_summarization/tokenize_recipes.py:27-36 | the two-stage key/`None` test holds if and only if both `title` and `instructions` are present and not `None` |
| `Recipes.CompletenessExamples` | recipe_summarization/tokenize_recipes.py:32-36 | `{}` and `{"title": "A", "instructions": None}` are incomplete; `{"title": "A", "instructions": "Mix."}` is complete |
| `Recipes.IsAdvertisement` | recipe_summarization/tokenize_recipes.py:17 | a token counts as an advertisement only if it has 13 characters and starts with `a` or `A` (its lower-cased form is `advertisement`) |
| `Recipes.AdvertisementAnyCase` | recipe_summarization/tokenize_recipes.py:17 | `Advertisement` and `ADVERTISEMENT` both count as the advertisement token |
| `Recipes.ExampleWordsKept` | recipe_summarization/tokenize_recipes.py:17 | ordinary words such as `Mix` and `water` are not advertisement tokens |
| `Recipes.FilterAds` | recipe_summarization/tokenize_recipes.py:16-18 | the filtered tokens are no more than the input, and none of them is an advertisement |
| `Recipes.FilterAdsMembership` | recipe_summarization/tokenize_recipes.py:16-18 | a token survives if and only if it was in the input and is not an advertisement |
| `Recipes.FilterAdsAppend` | recipe_summarization/tokenize_recipes.py:16-18 | filtering a concatenation is the concatenation of the filtered parts, so survivors keep their relative order |
| `Recipes.FilterAdsKeepsClean` | recipe_summarization/tokenize_recipes.py:16-18 | a token sequence without advertisements is left unchanged |
| `Recipes.TokenizeSentence` | recipe_summarization/tokenize_recipes.py:13-18 | `tokenize_sentence` gives `""` when no token survives the filter, and otherwise starts with the first surviving token; the split-back property is `Recipes.TokenizeSentenceTokens` |
| `Recipes.TokenizeSentenceTokens` | recipe_summarization/tokenize_recipes.py:13-18 | if at least one token survives and no token has a space: splitting the tokenized sentence on `' '` gives exactly the surviving tokens, and none is an advertisement |
| `Recipes.TokenizeSentenceExample` | recipe_summarization/tokenize_recipes.py:16-18 | tokens `Mix flour Advertisement and water` give the sentence `"Mix flour and water"` |
| `Recipes.IngredientString` | recipe_summarization/tokenize_recipes.py:44 | the ingredient string always ends with `"; "`; it is exactly `"; "` for no ingredients and starts with the first ingredient otherwise |
| `Recipes.SplitTrailing` | recipe_summarization/tokenize_recipes.py:69 | a separator-free string followed by `"; "` splits on `';'` into that string and `" "` |
| `Recipes.IngredientStringPieces` | recipe_summarization/tokenize_recipes.py:44 | with separator-free ingredients, the ingredient string splits on `';'` into one piece per ingredient plus a final `" "` (two pieces when the list is empty); the first piece is the first ingredient |
| `Recipes.TokenizeRecord` | recipe_summarization/tokenize_recipes.py:44-47 | the title is the title tokenized on its own; the body is the tokenized ingredient string (`tokenize_sentence(ingredients)`, lines 47 and 72) immediately followed by the tokenized instructions |
| `Recipes.Corpus` | recipe_summarization/tokenize_recipes.py:42-47 | the loop's result, record by record in input order; a successful result has at most one pair per record (its full characterization is `Recipes.CorpusIsFilterThenMap`) |
| `Recipes.KeptAppend` | recipe_summarization/tokenize_recipes.py:42-43 | selecting complete records from a concatenation gives the concatenation of the selections, so survivors keep their order |
| `Recipes.KeptEmpty` | recipe_summarization/tokenize_recipes.py:42-48 | no record is kept if and only if no record is complete |
| `Recipes.Kept` | recipe_summarization/tokenize_recipes.py:67-68 | the selected records are at most the input, and every one of them is complete |
| `Recipes.KeptMembership` | recipe_summarization/tokenize_recipes.py:67-68 | a record is selected if and only if it occurs in the input and is complete |
| `Recipes.CorpusIsFilterThenMap` | recipe_summarization/tokenize_recipes.py:64-74 | the loop's result is a success if and only if every complete record has `ingredients`; a success holds one pair per complete record, in input order |
| `Recipes.CorpusFailurePersists` | recipe_summarization/tokenize_recipes.py:67-72 | once a prefix of the records raises `KeyError`, the whole call fails with it |
| `Recipes.CorpusSkipsIncomplete` | recipe_summarization/tokenize_recipes.py:64-74 | for records A (complete), B (incomplete), C (complete) the output is the pair of A, then the pair of C |
| `Recipes.GetTokenized` | recipe_summarization/tokenize_recipes.py:64-74 | the loop computes the corpus: success exactly when no complete record lacks `ingredients`; then one pair per complete record, in input order |
| `Recipes.Unzip` | recipe_summarization/tokenize_recipes.py:48 | no pairs give the empty tuple; otherwise two lists as long as the input, whose i-th entries are the i-th pair's title and body |
| `Recipes.ZipUnzip` | recipe_summarization/tokenize_recipes.py:48 | zipping the transposed lists back together restores the pairs |
| `Recipes.UnzipZip` | recipe_summarization/tokenize_recipes.py:48 | transposing the zip of two aligned non-empty lists restores the lists |
| `Recipes.TokenizeRecipes` | recipe_summarization/tokenize_recipes.py:39-48 | fails exactly when `get_tokenized` fails; otherwise returns the transposed corpus, which is the empty tuple if and only if no record is complete |
| `Recipes.MakeDataframe` | recipe_summarization/tokenize_recipes.py:83-116 | all four columns have one row per input pair, and each row satisfies: `title[i]` is the pair's title; `ingredients[i] + [instructions[i]]` is `body.split(';')`; joining those pieces with `';'` gives back the body; a body without `';'` gives no ingredients and the whole body as instructions; `separator[i]` is `"</>separator</>"` |
| `Recipes.SplitBodyExample` | recipe_summarization/tokenize_recipes.py:102 | `"flour; sugar; Mix well".split(';')` is `["flour", " sugar", " Mix well"]`, untrimmed |
| `Recipes.SplitNoSemicolonExample` | recipe_summarization/tokenize_recipes.py:102-110 | `"Mix well"` splits into the single piece `"Mix well"`, so the ingredients slice `[0:-1]` is empty and the instructions are `"Mix well"` |
| `Recipes.SplitThreePieces` | recipe_summarization/tokenize_recipes.py:101-110 | three separator-free pieces joined by `';'` split back into exactly those pieces, untrimmed (so `"flour; sugar; Mix well"` gives `"flour"`, `" sugar"`, `" Mix well"`) |

## Left out

- `word_tokenize` (NLTK) is a parameter of the model. Its pretrained behaviour is not modelled.
- `parse_ingredient_list` is a parameter of the model. `parse_ingredients` is not part of this model.
- The `LookupError` handler in `tokenize_sentence` is left out: it prints a notice, calls `nltk.download()` and retries. The retry evaluates the same expression as the first attempt, so the value is the one `TokenizeSentence` gives. The download is network I/O, and a second failure propagating is not modelled.
- `pickle_recipes` and `load_recipes` are left out. They are file I/O and pickle serialization under `config.path_data`.
- The `tqdm` progress bars are left out. They have no effect on the result.
- pandas `DataFrame` internals are left out. Only the resulting column sequences are modelled.
- Exceptions raised inside the two collaborators are not modelled.
- Non-string values under `title` or `instructions` are not modelled.
- `PyString.ToLower`: covers ASCII letters only, not Unicode `str.lower()`.
- Both loops copy the same loop body, as the source does. Each is proved against the same specification function `Corpus`.
