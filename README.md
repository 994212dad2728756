# Recipe page instruction parsing, nutrient filter and tabs, in Dafny

This project models the logic of the recipe detail page of a recipe-browsing
web application (`frontend/src/pages/RecipePage.jsx`). The page fetches a
recipe from a third-party recipe service and shows it in three tabs.
Three pieces of that page hold logic, and the model covers all three:

- `parseInstructions` turns the recipe's free-text instructions into a list of
  cooking steps. It removes HTML tags with `/<[^>]*>/g`, then splits on
  `/\d+\.\s|\n/` (a numbered-list marker such as `"2. "`, or a line feed), then
  drops blank pieces. Two fixed messages cover missing instructions and text
  that leaves no step.
- The nutrient filter of `renderNutrition` keeps only the nutrients named
  Calories, Fat, Carbohydrates, Protein, Fiber or Sugar. A missing nutrition
  record or nutrient list gives a fixed message instead.
- The `activeTab` state starts at `"ingredients"`, and each of the three
  buttons sets it to a fixed value. The state decides which button is
  highlighted and which of the three panels is rendered.

Everything is pure, as in the source: datatypes, functions and lemmas, with no
classes and no loops. The files are:

- `wrappers.dfy` (`Option`, for null and undefined);
- `sequences.dfy` (subsequences and `Array.prototype.filter`);
- `js_text.dfy` (ECMAScript whitespace, `\d`, `String.prototype.trim`);
- `instructions.dfy` (`parseInstructions`);
- `nutrients.dfy` (`renderNutrition`);
- `recipe_page.dfy` (tabs, buttons and panels).

Modelling choices:

- Tag removal scans left to right, as a global replacement does. At a `<` that
  has a `>` after it, everything up to the first such `>` is removed. A `<`
  with no later `>` is kept.
- Splitting follows the split loop of ECMAScript's `RegExp.prototype[@@split]`.
  The pattern is tried at exactly each position `q`. On a match, the current
  piece ends at `q` and the next one starts after the separator. Otherwise the
  attempt moves on by one character. So `""` splits into `[""]`, and a text
  with no separator splits into itself.
- `\s` and `trim` use one whitespace predicate, `JsText.IsSpace`. It holds the
  full ECMAScript WhiteSpace and LineTerminator set, not a smaller sample:
  - TAB, LF, VT, FF, CR and SPACE;
  - U+00A0, U+1680, U+2000 to U+200A, U+202F, U+205F and U+3000;
  - U+2028, U+2029 and U+FEFF.
- `\d` is the ASCII digits `0`-`9`.
- Instructions are `Option<string>`. `None` is null or undefined. Exactly
  `None` and `Some("")` are falsy.

## Model

| member | source | states |
|---|---|---|
| `Sequences.Filter` | frontend/src/pages/RecipePage.jsx:124-126 | `filter` keeps exactly the elements satisfying the predicate: each survivor satisfies it, the result is an order-preserving subsequence, and each element occurs as often as in the input if kept and never otherwise; never longer than the input |
| `Sequences.SubsequenceMembers` | frontend/src/pages/RecipePage.jsx:152 | a subsequence is no longer than the whole, and each of its elements occurs in the whole |
| `Sequences.SubsequenceOfSuffix` | frontend/src/pages/RecipePage.jsx:150 | a subsequence of a suffix is a subsequence of the whole text |
| `JsText.Trim` | frontend/src/pages/RecipePage.jsx:152 | `trim` returns a slice of its input and cuts off only whitespace before and after it; the slice is empty exactly when the input is all whitespace, and otherwise starts and ends with non-whitespace |
| `Instructions.IndexOf` | frontend/src/pages/RecipePage.jsx:150 | position of the first occurrence of a character, or the length when it is absent |
| `Instructions.StripTags` | frontend/src/pages/RecipePage.jsx:150 | tag removal never lengthens the text |
| `Instructions.StripTagsDeletesOnly` | frontend/src/pages/RecipePage.jsx:150 | tag removal only deletes characters: the output is a subsequence of the input |
| `Instructions.StripTagsLeavesNoTag` | frontend/src/pages/RecipePage.jsx:150 | after tag removal no `<` is followed anywhere later by a `>` |
| `Instructions.TagFreeIsFixed` | frontend/src/pages/RecipePage.jsx:150 | a text holding no tag is left unchanged |
| `Instructions.StripTagsFixedPoints` | frontend/src/pages/RecipePage.jsx:150 | the texts tag removal leaves unchanged are exactly the tag-free ones (both directions) |
| `Instructions.StripTagsIdempotent` | frontend/src/pages/RecipePage.jsx:150 | removing tags twice gives the same text as removing them once |
| `Instructions.StripTagsKeepsPlainPrefix` | frontend/src/pages/RecipePage.jsx:150 | text before the first `<` survives tag removal unchanged |
| `Instructions.StripTagsRemovesLeadingTag` | frontend/src/pages/RecipePage.jsx:150 | a whole tag (`<`, no `>`, `>`) at the front is removed and nothing after it is touched |
| `Instructions.DigitRunEnd` | frontend/src/pages/RecipePage.jsx:151 | `\d+` greedily reaches the first non-digit after the run |
| `Instructions.SeparatorAt` | frontend/src/pages/RecipePage.jsx:151 | a match tried at a position ends within the text |
| `Instructions.SeparatorAtMatches` | frontend/src/pages/RecipePage.jsx:151 | a match found at a position is a separator (digits, full stop, whitespace, or a line feed); when none is found, no prefix of the rest of the text is a separator |
| `Instructions.SeparatorUnique` | frontend/src/pages/RecipePage.jsx:151 | any separator starting at a position is exactly the one the match finds there, so the match at a position is unique |
| `Instructions.NoDigitSeparatorAt` | frontend/src/pages/RecipePage.jsx:151 | a digit run not closed by a full stop and a whitespace starts no separator |
| `Instructions.SplitFrom` | frontend/src/pages/RecipePage.jsx:151 | the split loop yields one more piece than separators |
| `Instructions.SplitFromAtSeparator` | frontend/src/pages/RecipePage.jsx:151 | on a match the loop closes the current piece at the match and starts the next after the separator |
| `Instructions.SplitFromNoMatch` | frontend/src/pages/RecipePage.jsx:151 | without a match the loop moves on by one character, and the piece still holds no separator start |
| `Instructions.SplitFromRebuilds` | frontend/src/pages/RecipePage.jsx:151 | pieces interleaved with separators rebuild the text the loop was given |
| `Instructions.InterleaveCons` | frontend/src/pages/RecipePage.jsx:151 | interleaving a piece and a separator in front prepends them to the rebuilt text |
| `Instructions.SliceInThree` | frontend/src/pages/RecipePage.jsx:151 | cutting the text at a separator's two ends loses nothing |
| `Instructions.SplitFromSeparators` | frontend/src/pages/RecipePage.jsx:151 | every separator the loop consumes is one the pattern matches |
| `Instructions.SplitFromAvoidsSeparators` | frontend/src/pages/RecipePage.jsx:151 | no separator begins at any position inside a piece, so every cut is at the leftmost match |
| `Instructions.LastPieceAvoidsSeparators` | frontend/src/pages/RecipePage.jsx:151 | the final piece, which runs to the end of the text, holds no separator start |
| `Instructions.AvoidSeparatorsCons` | frontend/src/pages/RecipePage.jsx:151 | a separator-free piece closed by a match, followed by separator-free pieces, keeps every piece separator-free |
| `Instructions.InterleavePieceAt` | frontend/src/pages/RecipePage.jsx:151 | each piece is the contiguous stretch of the rebuilt text at its start offset |
| `Instructions.NoSeparatorMeansClean` | frontend/src/pages/RecipePage.jsx:151 | a stretch where no separator begins holds no line feed and no digit directly followed by a full stop and a whitespace |
| `Instructions.PiecesAreClean` | frontend/src/pages/RecipePage.jsx:151 | every piece of a split holds no line feed and no "digit, full stop, whitespace" |
| `Instructions.SplitSteps` | frontend/src/pages/RecipePage.jsx:151 | `split` with its separators: pieces and separators alternate and rebuild the text; each separator matches the pattern; no separator begins inside a piece; no piece holds a line feed or a "digit, full stop, whitespace" |
| `Instructions.DropBlank` | frontend/src/pages/RecipePage.jsx:152 | the blank filter keeps exactly the pieces with a non-whitespace character, untrimmed, in order, with repetitions |
| `Instructions.DropBlankEmptyIffAllBlank` | frontend/src/pages/RecipePage.jsx:152-154 | nothing survives the blank filter exactly when every piece is blank |
| `Instructions.ParseInstructions` | frontend/src/pages/RecipePage.jsx:145-155 | result never empty; null, undefined or `""` give exactly `["No instructions available"]`; any other result is `["Instructions format not recognized"]` or an order-preserving selection of the split pieces, each with a non-whitespace character, no line feed and no "digit, full stop, whitespace" |
| `Instructions.ParseNonEmptyText` | frontend/src/pages/RecipePage.jsx:149-154 | for a non-empty text: all pieces blank gives exactly the "not recognized" message; otherwise the result is exactly the non-blank pieces, untrimmed, in order, with repetitions |
| `Nutrients.RenderNutrition` | frontend/src/pages/RecipePage.jsx:112-126 | missing nutrition or nutrient list gives exactly the fixed message, and only then; a present list (even an empty one) always gives a grid holding exactly the nutrients named by one of the six keys, in order, with repetitions, never more than the input |
| `Nutrients.EmptyListGivesEmptyGrid` | frontend/src/pages/RecipePage.jsx:113-126 | an empty but present nutrient list is truthy and gives an empty grid, not the message |
| `Nutrients.KeyedNutrientsAreShown` | frontend/src/pages/RecipePage.jsx:116-126 | every reported nutrient whose name is a key is shown |
| `RecipePage.KeysAreDistinct` | frontend/src/pages/RecipePage.jsx:196-216 | the three tab values are distinct strings |
| `RecipePage.Click` | frontend/src/pages/RecipePage.jsx:194-216 | each button sets the tab value its own highlight test compares against |
| `RecipePage.ClickIsOneToOne` | frontend/src/pages/RecipePage.jsx:194-216 | distinct buttons set distinct tabs, and after a click exactly the clicked button is highlighted |
| `RecipePage.OneButtonHighlighted` | frontend/src/pages/RecipePage.jsx:195-219 | for every tab value exactly one button is highlighted, and clicking it keeps that value |
| `RecipePage.LastClickWins` | frontend/src/pages/RecipePage.jsx:63 | the state is replaced wholesale: after clicks, the tab is the last click's value, or the initial one when there were none |
| `RecipePage.IngredientLines` | frontend/src/pages/RecipePage.jsx:235-241 | the ingredients panel lists each ingredient's `original` text, one line per ingredient, in order |
| `RecipePage.Panels` | frontend/src/pages/RecipePage.jsx:228-274 | the three independent tab conditionals render exactly one panel, the one belonging to the active tab |
| `RecipePage.PanelAfterClicks` | frontend/src/pages/RecipePage.jsx:63 | from the initial `"ingredients"` state, after any clicks exactly one panel is shown: ingredients before any click, otherwise the last clicked button's panel |

## Left out

- Fetching the recipe is network I/O and React lifecycle, and is not modelled: the effect with its service key, the loading and error flags, and the reload button (RecipePage.jsx lines 65-110).
- The JSX markup, CSS classes and the remaining display fields (title, image, badges, diet flags) carry no logic and are not modelled.
- A nutrient's `amount` and `unit` are carried unchanged and not reasoned about. The amount is a JavaScript number, modelled as `real`.
- A recipe without `extendedIngredients` is not modelled: the ingredients list is always present. In the source, `map` on the missing field throws a TypeError while rendering, and it does so on the initial tab (RecipePage.jsx line 235).
- A `null` entry in the nutrient list is not modelled: entries are always records. In the source, reading `item.name` on it throws a TypeError (RecipePage.jsx line 125).
- A nutrient without a `name` is not modelled. In the source its name is `undefined`, so the filter drops it.
- React's warning for duplicate `key={nutrient.name}` values is not modelled. Duplicates are kept in the grid.
- Strings are sequences of Unicode scalar values. JavaScript strings are UTF-16 code units, so lone surrogates cannot be expressed.
- `JsText.IsSpace` lists the Unicode space separators as of Unicode 15. A JavaScript engine uses its own Unicode version.
- Falsy instruction values other than null, undefined and `""` (such as `0` or `false`) are not modelled. The recipe service returns a string.
- The split limit of 2^32-1 pieces is not modelled.
- Instructions.ParseInstructions: states that each step has a non-whitespace character and is clean only for results other than the two fixed fallback messages; the messages themselves are constants.
- Account sign-up, login, password hashing and tokens are not modelled. Their code, `backend/routes/authRoutes` (required at backend/server.js line 24), is not part of this model, and it rests on cryptographic library calls.
- Express middleware, the database connection and `listen` in `backend/server.js` are I/O plumbing and are not modelled.
- In `frontend/src/pages/Login.jsx`, the login request, the `localStorage` write and the navigation are I/O and are not modelled. Its remaining one-field form update and error-message fallback are form glue, too thin to model.
- `frontend/src/App.jsx` (route table) and `frontend/src/pages/Home.jsx` (static markup) contain no logic and are not modelled.
