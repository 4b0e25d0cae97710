# A/B test statistics core, modelled in Dafny

This project models the computational core of a two-variant (control/treatment)
conversion experiment:

- **Dataset cleaning** (`src/data_wrangle.py`, and `01_data_wrangle.py`, whose lines
  7-24 are the same): keep only the rows whose `(group, landing_page)` pair is
  `(control, old_page)` or `(treatment, new_page)`, then drop repeated `user_id`s,
  keeping the last row of each user (`drop_duplicates(subset="user_id", keep="last")`).
  Module `DataWrangle` (data_wrangle.dfy), on top of module `Frame` (frame.dfy), which
  holds the row type and boolean-mask selection (`df.loc[mask]`, `df[mask]`).
- **`report_conversions`** (`src/utils/helper_ab_test.py`): filter the rows of one group,
  check that they show exactly one distinct page, and return
  `(conversions, total_users, conversions / total_users)`; otherwise return `None`.
  Module `HelperAbTest` (helper_ab_test.dfy).
- **`get_ab_test_ci`** (same file): the two rates, their difference, the Wald variance of a
  difference of two independent proportions, `sd = sqrt(variance)`, the critical value
  `|ppf((1 - confidence_level) / 2)|` and the bounds `mean -/+ z * sd`.

Rates are exact `real`s. A row is `Row(userId, group, page, converted)`; group and page
are strings, so any other spelling of a group or page is dropped by the validity mask
just as the string comparisons of lines 10-11 drop it. The column-name parameters of
`report_conversions` are fixed to `group`, `converted` and `landing_page`.
`math.sqrt` and `scipy.stats.norm.ppf` are passed in as functions: `sqrt` is required to
return the non-negative square root on non-negative arguments (`IsSqrt`), and only the
finding below assumes anything of `ppf` (that it is increasing and odd about 1/2, as the
standard normal quantile is). Errors are values: `report_conversions`' print-and-fall-through
branch is `None`; `ZeroDivisionError` at lines 218-219 is `Err(ZeroDivision)`; `math.sqrt`
of a negative variance (counts outside `0..total`) raises a math domain error in Python and
is `Err(MathDomain)` here.

Two behaviours of the code are kept as they are:
`report_conversions` does not raise on a group that shows several pages (or no rows); it
prints and returns `None` (lines 66-70). The critical value is taken at
`(1 - confidence_level) / 2`, not at `1 - confidence_level / 2` (line 232; see Findings).
The return annotation `-> str` of `get_ab_test_ci` (line 188) is not what it returns: it
returns the pair `(lower_bound, upper_bound)`, modelled as `Interval`.

## Model

| member | source | states |
|---|---|---|
| Frame.Select | src/data_wrangle.py:13 | a mask selection is no longer than the table and holds only rows of the table (as a multiset) |
| Frame.SelectPicks | src/data_wrangle.py:13 | `df.loc[mask]` is the subsequence of the table at exactly the true positions of the mask: rows unchanged, relative order kept |
| Frame.SelectMembers | src/utils/helper_ab_test.py:62 | a row is in `data[mask]` iff it sits at a position where the mask is true |
| Frame.SelectAll | 01_data_wrangle.py:13 | an all-true mask selects the whole table |
| Frame.SubsequenceTransitive | 01_data_wrangle.py:13-24 | a selection of a selection is still a subsequence of the original table |
| DataWrangle.ValidityMask | src/data_wrangle.py:10-12 | no contract of its own; `mask_control_old` or `mask_treatment_new`, per row, characterised by MaskKeepsValidPairs |
| DataWrangle.MaskValidPairs | src/data_wrangle.py:13 | no contract of its own; `df.loc[mask].copy()`, characterised by MaskKeepsValidPairs |
| DataWrangle.NotDuplicated | src/data_wrangle.py:24 | no contract of its own; `~duplicated(subset, keep)`, characterised by NotDuplicatedIsSurvives |
| DataWrangle.DropDuplicates | src/data_wrangle.py:24 | no contract of its own; `drop_duplicates(subset, keep, inplace=False)` (also the call of line 7), characterised by DropDuplicatesKeepsSurvivors, DropDuplicatesUniqueKeys and DropDuplicatesKeepsKeys |
| DataWrangle.Clean | src/data_wrangle.py:10-24 | no contract of its own; the mask then the keep-last user dedup, characterised by CleanInvariant, CleanKeepsLastRows and CleanIdempotent |
| DataWrangle.RunScript | src/data_wrangle.py:7-24 | no contract of its own; the script's bindings with line 7's result discarded, characterised by RunScriptCleans |
| DataWrangle.MaskKeepsValidPairs | src/data_wrangle.py:10-13 | position i survives the mask iff its pair is (control, old_page) or (treatment, new_page); survivors are unchanged and in input order |
| DataWrangle.MaskDropsControlOnNewPage | src/data_wrangle.py:8-13 | a control row that saw new_page is removed while a control/old_page row is kept |
| DataWrangle.NotDuplicatedIsSurvives | src/data_wrangle.py:24 | `~duplicated(keep)` marks row i iff no other row with its key comes before it (first) or after it (last) |
| DataWrangle.DropDuplicatesKeepsSurvivors | src/data_wrangle.py:24 | `drop_duplicates` keeps exactly the surviving positions, in order; with `keep="last"` a row survives iff no later row has its user_id |
| DataWrangle.DropDuplicatesUniqueKeys | src/data_wrangle.py:24 | after `drop_duplicates` every key (user_id) appears at most once |
| DataWrangle.SurvivorExists | src/data_wrangle.py:24 | every key of the table has a surviving row (its last, or first, occurrence) |
| DataWrangle.DropDuplicatesKeepsKeys | src/data_wrangle.py:24 | `drop_duplicates` loses no key: the key sets before and after are equal |
| DataWrangle.DropDuplicatesOfUnique | 01_data_wrangle.py:24 | on a table whose keys are already unique, `drop_duplicates` returns it unchanged |
| DataWrangle.CleanInvariant | src/data_wrangle.py:10-24 | the cleaned table has only valid pairs, unique user_ids, is a subsequence of the input, keeps every user_id of the masked table, and each kept row is its user's last row in the masked table |
| DataWrangle.CleanKeepsLastRows | 01_data_wrangle.py:24 | each user's last row in the masked table is in the cleaned table |
| DataWrangle.CleanIdempotent | 01_data_wrangle.py:10-24 | cleaning the cleaned table returns it unchanged |
| DataWrangle.RunScriptCleans | 01_data_wrangle.py:7-24 | after the script `df` is the input (line 7's result is discarded) and `df_clean` is the mask-then-dedup of it, holding only valid pairs |
| DataWrangle.DiscardedPairDedupDropsRows | src/data_wrangle.py:7 | the call on line 7 would drop a repeated (group, landing_page) row, yet `df` is unchanged because its result is discarded |
| HelperAbTest.FilterGroup | src/utils/helper_ab_test.py:62 | no contract of its own; `data[data[group_col] == group_filter]`, characterised by FilterGroupFolds and FilterGroupSinglePage |
| HelperAbTest.PageColumn | src/utils/helper_ab_test.py:63 | no contract of its own; the `page_col` column of the filtered rows, used by FilterGroupSinglePage |
| HelperAbTest.SumConverted | src/utils/helper_ab_test.py:72 | no contract of its own; `df_filter[convert_col].sum()`, equated with GroupConversions by FilterGroupFolds |
| HelperAbTest.GroupSize | src/utils/helper_ab_test.py:73 | no contract of its own; the group's row count made directly over the table, the reference for `count()` in FilterGroupFolds |
| HelperAbTest.GroupConversions | src/utils/helper_ab_test.py:72 | no contract of its own; the group's conversions summed directly over the table, the reference for `sum()` in FilterGroupFolds |
| HelperAbTest.Rate | src/utils/helper_ab_test.py:218-219 | no contract of its own; conversions / total_users, defined only for a non-zero total |
| HelperAbTest.WaldVariance | src/utils/helper_ab_test.py:223-230 | no contract of its own; pt(1-pt)/tt + pc(1-pc)/tc, shown non-negative by WaldVarianceNonNegative |
| HelperAbTest.WaldInterval | src/utils/helper_ab_test.py:218-236 | no contract of its own; the body of `get_ab_test_ci` for a given z, characterised by WaldIntervalSpec |
| HelperAbTest.CriticalValue | src/utils/helper_ab_test.py:232 | no contract of its own; abs(ppf((1 - level)/2)) as written, compared with the two-sided value by AsWrittenCriticalValueTooSmall |
| HelperAbTest.AbTestCi | src/utils/helper_ab_test.py:182-238 | no contract of its own; `get_ab_test_ci` as written, characterised by AbTestCiSpec and AbTestCiSwapGroups |
| HelperAbTest.CorrectedCriticalValue | src/utils/helper_ab_test.py:207-209 | no contract of its own; abs(ppf(level/2)) for the documented significance level, characterised by CorrectedCriticalValueIsUpperQuantile |
| HelperAbTest.AbTestCiCorrected | src/utils/helper_ab_test.py:218-236 | no contract of its own; `get_ab_test_ci` with the corrected critical value, characterised by AbTestCiCorrectedSpec |
| HelperAbTest.AsWrittenFitsConfidenceReading | src/utils/helper_ab_test.py:232 | the formula as written gives the two-sided critical value for level alpha when passed the confidence level 1 - alpha |
| HelperAbTest.Unique | src/utils/helper_ab_test.py:63 | `unique()` holds exactly the values of the column, each once |
| HelperAbTest.UniqueSingleton | src/utils/helper_ab_test.py:63-66 | exactly one distinct page iff the column is non-empty and constant |
| HelperAbTest.ReportConversions | src/utils/helper_ab_test.py:61-81 | whenever a report is returned its total_users is at least 1, so the division of line 81 is defined |
| HelperAbTest.FilterGroupFolds | src/utils/helper_ab_test.py:62-73 | sum and count over the filtered rows equal the conversions and the size of the group counted directly over the table |
| HelperAbTest.FilterGroupSinglePage | src/utils/helper_ab_test.py:62-66 | the filtered group shows one page iff the group has a row and all its rows share a page |
| HelperAbTest.ReportConversionsSpec | src/utils/helper_ab_test.py:61-81 | a report is returned iff the group shows exactly one page; it is (group conversions, group size >= 1, their exact ratio) |
| HelperAbTest.GroupConversionsBounds | src/utils/helper_ab_test.py:72-73 | with 0/1 `converted` values on the group's rows, 0 <= conversions <= total_users |
| HelperAbTest.ReportConversionsRateBounds | src/utils/helper_ab_test.py:72-81 | with 0/1 `converted` values on the group's rows, a returned report has 0 <= conversions <= total_users and 0 <= rate <= 1 |
| HelperAbTest.ReportConversionsExample | src/utils/helper_ab_test.py:42-59 | the five-row example frame reports (1, 3, 1/3) for control |
| HelperAbTest.ReportConversionsNoneExamples | src/utils/helper_ab_test.py:66-70 | a group that saw two pages, and a group with no rows, get None |
| HelperAbTest.WaldIntervalSpec | src/utils/helper_ab_test.py:218-236 | zero total iff division by zero; else negative variance iff math domain error; else lower <= upper, midpoint pt - pc, half-width squared = z^2 * variance |
| HelperAbTest.WaldVarianceNonNegative | src/utils/helper_ab_test.py:223-230 | with 0 <= conversions <= totals > 0 the variance pt(1-pt)/tt + pc(1-pc)/tc is not negative |
| HelperAbTest.AbTestCiSpec | src/utils/helper_ab_test.py:182-238 | division by zero iff a total is 0; valid counts always give an interval; any interval is ordered, centred on pt - pc, with half-width squared = z^2 * variance for z = abs(ppf((1 - level)/2)) |
| HelperAbTest.AbTestCiSwapGroups | src/utils/helper_ab_test.py:218-236 | exchanging control and treatment mirrors the interval around zero |
| HelperAbTest.LowerQuantileAbs | src/utils/helper_ab_test.py:232 | the absolute value of a quantile below 1/2 is the mirrored upper quantile |
| HelperAbTest.AsWrittenCriticalValueTooSmall | src/utils/helper_ab_test.py:232 | as written, z is the upper (1 - level)/2 point, strictly below the two-sided critical value for every level below 1/2 |
| HelperAbTest.DefaultLevelCriticalValues | src/utils/helper_ab_test.py:187-232 | at the default level 0.05 the source uses ppf(0.525) where ppf(0.975) is meant, and the first is smaller |
| HelperAbTest.CorrectedCriticalValueIsUpperQuantile | src/utils/helper_ab_test.py:207-209 | the corrected z, abs(ppf(level/2)), is ppf(1 - level/2), the two-sided critical value for significance level `level` |
| HelperAbTest.AsWrittenIntervalTooNarrow | src/utils/helper_ab_test.py:232-236 | with positive variance the interval as written lies strictly inside the corrected one |
| HelperAbTest.AbTestCiCorrectedSpec | src/utils/helper_ab_test.py:218-236 | the corrected interval is (pt - pc) -/+ ppf(1 - level/2) * sd, ordered, and fails with division by zero iff a total is 0 |

## Findings

| source | as written | input that shows it | evidently intended | confidence | as-written member | corrected member |
|---|---|---|---|---|---|---|
| src/utils/helper_ab_test.py:232 | the critical value is the absolute normal quantile at (1 - confidence_level) / 2, which is the two-sided value only if the parameter were a confidence level such as 0.95; yet the parameter is alpha: its default is 0.05 (line 187), the docstring calls it the significance level (lines 207-209), and `get_sample_size` passes the same-named parameter as `alpha` (line 130) | confidence_level = 0.05: the quantile is taken at 0.475, so z = ppf(0.525), about 0.063, and the interval is about 31 times too narrow | z = ppf(1 - confidence_level / 2) (ppf(0.975), about 1.96), i.e. abs(ppf(confidence_level / 2)) | high for any level below 1/2 (proved from monotonicity and symmetry of the quantile); the numeric values are those of the standard normal distribution; not executed | HelperAbTest.AsWrittenIntervalTooNarrow | HelperAbTest.AbTestCiCorrectedSpec |

`AbTestCi` keeps the argument as written, since that is what the program computes;
`AbTestCiCorrected` shares the same body (`WaldInterval`) with the corrected critical value.

## Left out

- `get_sample_size` (src/utils/helper_ab_test.py:87-135): a call into statsmodels' effect size and power solver on floats; nothing but a foreign call to model.
- `check_sample_sizes` (src/utils/helper_ab_test.py:138-179): depends on `get_sample_size` and only prints; its conditions `a >= s & b >= s` parse as the chained comparison `a >= (s & b) >= s`, and `&` on a float sample size raises TypeError before any verdict, so no four-way verdict exists to model.
- The `percent_page` computation and its rounding (lines 75-76) and every `print`: console output only, not part of the returned value.
- Floating point: rates, variance and bounds are exact reals, so rounding (the `0.3333333333333333` of the doctest is the real 1/3 here) and NaN/infinity from `ppf` outside (0, 1) are not modelled; `ppf` is any total real function.
- `math.sqrt` and `scipy.stats.norm.ppf` internals: abstracted as function parameters.
- Missing values: `count()` at line 73 counts non-null values; the model assumes none are missing, so `total_users` is the number of group rows.
- NumPy integer division: the model's division by zero follows Python `int` division (ZeroDivisionError); NumPy scalars would instead give inf/nan with a warning.
- CSV reading and writing (data_wrangle scripts lines 3 and 26) and the inspection expressions of lines 16-23, whose values are discarded.
- `notebooks/ab_test.py`: orchestration with file I/O; it unpacks the 3-tuple of `report_conversions` into two names, which would fail at run time.
- Test scaffolding, the doctest runner (lines 243-244) and the `try/except Exception: raise` wrappers, which re-raise unchanged.
- HelperAbTest.ReportConversionsRateBounds: the bounds are stated under the assumption that every `converted` value of the group's rows is 0 or 1, which the source does not check.
