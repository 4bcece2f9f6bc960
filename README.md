# Beta-test form shortener: a Dafny model

This project models the core of a small Python program that shortens an
examination form after its beta test. The form was tried with more items
than the final form may hold. The program drops one item at a time until
`TARGET_LENGTH` items remain. Each time it takes item 0 as the reference
removal. It then replaces that reference with any later item that passes a
blueprint check and whose removal leaves a form with a strictly higher
reliability coefficient (Cronbach's alpha). The blueprint gives each content
domain a minimum and a maximum item count. The program aims to respect the
blueprint, but item 0 is never checked, so it does not always manage to.

The model has five modules:

- `Dicts` (`dicts.dfy`) models Python's insertion-ordered `dict` as a key
  order plus a map (`Dict`). It also defines `Distinct`.
- `Responses` (`responses.dfy`) holds the response grid (candidate -> item ->
  score, where a score is 1, 0 or blank). It models `check_key`, the
  in-memory part of `make_data_base` (pre-fill every cell with blank, then
  overwrite each cell from the response log) and `extract_item_IDs`.
- `Reliability` (`reliability.dfy`) models `get_covpq`, `get_varx` and
  `get_alpha`. The counting loops are methods proved against specification
  functions (`Ones`, `Answered`, `CovPq`, `Scores`). Alpha is computed over
  exact reals. Alpha depends on neither the order of the items nor the order
  of the candidates (`AlphaItemOrder`, `AlphaCandidateOrder`).
- `Rules` (`rules.dfy`) models `check_rules`. The loop that builds the dict
  of domain counts is `DomainCounts`. The check itself is `CheckRules`,
  proved equal to the blueprint rule `Admissible`, which is stated with an
  independent recursive `Count`.
- `Optimizer` (`optimizer.dfy`) models `reductio` (`Reductio`) and
  `find_optimal_subset` (`FindOptimalSubset`). `GreedyChoice` states
  `reductio`'s result as an argmax:
  - item 0 is the unchecked reference removal;
  - a later item replaces it only if it passes the blueprint check and has a
    strictly greater trial alpha;
  - ties go to the earliest item.

`TARGET_LENGTH` (a module constant, 75, in the source) is the parameter
`target`. The optimizer takes the alpha of a trial form as a function
parameter `alpha`. The driver requires `alpha` to equal `Reliability.Alpha`
on every item list where that is defined. Its caller must supply such a
function. `GetAlpha` computes the same value, but it is a method, so it
cannot be passed as the parameter.

Python lists are passed by reference, and `reductio` copies its list before
every trial `pop`. In the model every list is a `seq` value, so `Reductio`
cannot change its caller's list.

The program has no error handling for a one-item form, for an item nobody
answered or for zero score variance: it just divides and Python raises.
These cases are preconditions here (see "Left out").

## Model

| member | source | states |
|---|---|---|
| `Dicts.Dict.Put` | project.py:251-261 | storing a value under a key keeps the dict valid and sets that key's value; an existing key keeps its position, a new key goes last, as in a Python dict |
| `Responses.CheckKey` | project.py:264-274 | a blank response scores blank; a non-blank response scores 1 exactly when it equals the item's key, otherwise 0; the key must exist even for a blank response |
| `Responses.RecordedWithoutResponse` | project.py:250-254 | a cell that no response line names keeps the blank it was pre-filled with |
| `Responses.RecordedIsLatest` | project.py:255-261 | a cell holds the score of the last response line for that candidate and item; later lines overwrite earlier ones |
| `Responses.BlankRow` | project.py:252-253 | a pre-filled row lists every item once, in order, each cell blank |
| `Responses.BlankGrid` | project.py:250-254 | the pre-filled grid lists every candidate once, in order, each with a blank row of all items |
| `Responses.ScoreResponse` | project.py:256-261 | storing one scored response changes only the cell it names and keeps every row's items and order |
| `Responses.ScoreResponses` | project.py:255-261 | after the whole log, every cell is the latest recorded score or blank, and the rows keep their items |
| `Responses.MakeDataBase` | project.py:232-262 | the built grid is well formed (every row holds the same items), lists candidates and items in the given order, and every cell is the latest recorded score or blank |
| `Responses.SameItemsWellFormed` | project.py:153-158 | a grid whose rows all list the same items satisfies the invariant that `extract_item_IDs` relies on |
| `Responses.ExtractItemIds` | project.py:153-159 | the first row's keys list, without repeats, exactly the items of every candidate's row |
| `Reliability.CountsBounded` | project.py:126-132 | 0 <= ones <= ones_and_zeros <= number of candidates |
| `Reliability.CountsAreMultiplicities` | project.py:126-132 | ones is the number of credited cells and ones_and_zeros the number of non-blank cells, so neither depends on candidate order |
| `Reliability.OmissionsIgnored` | project.py:129-132 | a blank cell, wherever it stands, adds to neither count |
| `Reliability.CountResponses` | project.py:126-132 | the per-item loop returns ones and ones_and_zeros of the item's column, with ones <= ones_and_zeros <= number of candidates |
| `Reliability.Pq` | project.py:133 | an item's pq term is between 0 and 1/4, so its numerator is never negative |
| `Reliability.PqBounded` | project.py:133 | ones*(answered-ones)/answered^2 lies in [0, 1/4] whenever ones <= answered and answered > 0 |
| `Reliability.CovPq` | project.py:117-135 | covpq, the sum of the items' pq terms, lies in [0, k/4] |
| `Reliability.GetCovPq` | project.py:117-135 | the loop over items returns covpq, and it lies in [0, k/4] |
| `Reliability.ScoreCandidate` | project.py:144-148 | a candidate's score is the number of their credited cells among the items, at most the number of items |
| `Reliability.CandidateScores` | project.py:142-149 | exactly one score per candidate, in grid order, each between 0 and the number of items |
| `Reliability.SquaredDeviations` | project.py:150 | the sum of squared deviations is never negative |
| `Reliability.SampleVariance` | project.py:150 | the Bessel-corrected sample variance of the scores is never negative |
| `Reliability.EqualScoresNoVariance` | project.py:150 | when every candidate has the same score the variance is 0, which the alpha formula divides by |
| `Reliability.GetVarx` | project.py:137-150 | returns the sample variance of the candidates' scores, which is not negative |
| `Reliability.VariancePermutation` | project.py:150 | the sample variance of a rearrangement of the scores is the same |
| `Reliability.CovPqPermutation` | project.py:117-135 | covpq of a rearrangement of the items is the same |
| `Reliability.Cronbach` | project.py:115 | (k/(k-1))(1 - covpq/varx) with k >= 2, covpq >= 0 and varx > 0 never exceeds k/(k-1) |
| `Reliability.Alpha` | project.py:105-115 | alpha = (k/(k-1))(1 - covpq/varx), where defined, never exceeds k/(k-1) |
| `Reliability.GetAlpha` | project.py:105-115 | returns Cronbach's alpha of the items, which is at most k/(k-1) |
| `Reliability.AlphaItemOrder` | project.py:105-150 | alpha is defined for a rearrangement of the items exactly where it is for the items, and has the same value |
| `Reliability.AlphaCandidateOrder` | project.py:105-150 | a grid holding the same rows under a rearrangement of the candidates has the same alpha |
| `Rules.Count` | project.py:310-316 | a domain's item count never exceeds the length of the form |
| `Rules.CountPositive` | project.py:310-316 | every domain that occurs in the form has a positive count |
| `Rules.CountWitness` | project.py:310-316 | a domain with a positive count has an item in the form |
| `Rules.DomainCounts` | project.py:309-316 | the counts dict lists each domain of the form once, in the order of first appearance (`FirstSeen`), with its item count; exactly the domains of the form are keys; the counts sum to the length of the form |
| `Rules.TallyNew` | project.py:313-314 | counting an item of a domain not yet counted appends the domain with count 1 and keeps the dict equal to the domain counts |
| `Rules.TallyKnown` | project.py:315-316 | counting an item of a domain already counted adds one to its count and keeps the order |
| `Rules.CheckRules` | project.py:300-335 | rejects when the item's own domain would drop below its minimum; otherwise accepts exactly when no other domain is over its maximum by more than len(item_list) - TARGET_LENGTH |
| `Optimizer.Without` | project.py:92-98 | the trial form after `list.pop(i)` on a copy is one item shorter |
| `Optimizer.WithoutRemovesOne` | project.py:92-98 | the trial form holds every item of the form except one copy of the popped item |
| `Optimizer.RemoveFirst` | project.py:77 | `list.remove(x)` shortens the form by one and takes out exactly one copy of x |
| `Optimizer.RemoveFirstIsWithout` | project.py:77 | with distinct item ids, removing the chosen item by value is the same as popping it at its position, as in the trial |
| `Optimizer.GreedyChoiceUnique` | project.py:92-103 | at most one position satisfies `reductio`'s selection rule, so the rule fixes the result |
| `Optimizer.ReferenceIsFallback` | project.py:92-93 | when no later item passes the blueprint check, item 0 is the removal, whether or not it is legal itself |
| `Optimizer.ReferenceMayBreakMinimum` | project.py:92-102 | for a concrete three-item form with every domain at its minimum, every trial form keeps two items and no removal passes the check, yet item 0 is chosen under any alpha and its domain drops below its minimum |
| `Optimizer.Reductio` | project.py:87-103 | returns item 0, or a later item that passes the blueprint check with a strictly higher trial alpha; its trial alpha is at least that of item 0 and of every later item that passes; ties go to the earliest |
| `Optimizer.HistoryExtends` | project.py:73-77 | appending the item `reductio` picks to `removed` and removing it from the form extends the run's history |
| `Optimizer.DistinctOccursOnce` | project.py:157-158 | item ids taken from dict keys occur at most once |
| `Optimizer.PermutationKeepsDistinct` | project.py:70-80 | a rearrangement of the distinct initial items has no repeats, so no item is removed twice |
| `Optimizer.FindOptimalSubset` | project.py:54-85 | with n initial items, runs n - TARGET_LENGTH removals and ends with TARGET_LENGTH items when n > TARGET_LENGTH, otherwise none; removed followed by the final items is a permutation of the initial items, with no repeats; each removal is `reductio`'s pick from the form before it |

## Left out

- File reading and parsing are not modelled. This covers `get_blueprint`,
  `get_keys`, `get_domains`, `get_cand_and_item`, `evaluate_responses` and
  the `csv.reader` part of `make_data_base`. `MakeDataBase` takes the
  candidates, items and response lines as parameters.
- Console output and `main` are not modelled: the `print` calls and the
  per-step alpha report in `find_optimal_subset`, and `round(alpha, 5)`.
  `extract_candidate_IDs` is not modelled either; nothing in the core calls
  it.
- Floating point is not modelled. Alpha, covpq and the variance are exact
  reals. Python's rounding, and any tie in `reductio` that rounding would
  create or break, are not modelled.
- `statistics.variance` is a library call. It is modelled as the
  Bessel-corrected sample variance (divisor n - 1), which is what the
  library documents.
- Failures the source does not handle are preconditions, not error results:
  - a missing dict key (`KeyError`): a missing answer key, item cell, domain
    or blueprint entry;
  - an empty grid (`IndexError` in `extract_item_IDs`);
  - division by zero: a one-item form, an item nobody answered, or zero
    score variance;
  - fewer than two candidates (`statistics.variance` raises).
- CheckRules: it requires every domain of the form to have blueprint bounds.
  The source looks up only the domains it reaches before an early
  `return False`.
- Reductio: where `Reliability.Alpha` is undefined, `alpha` may be any
  value. The optimizer's contracts hold for every run of the model. On
  inputs where the source raises, they describe a run that the source never
  completes.
- FindOptimalSubset: it does not prove that the final form satisfies the
  blueprint, because the source does not guarantee it. The unchecked
  reference removal (`ReferenceMayBreakMinimum`) and the check's
  one-domain-at-a-time reasoning can both break the blueprint.
