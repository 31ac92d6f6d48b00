# jquery-cron and gentleSelect, modelled in Dafny

A model of the logic of `cron/jquery-cron.js`, a jQuery widget that edits a
restricted five-field crontab entry (minute, hour, day of month, month, day of
week), and of the non-DOM part of `gentleSelect/jquery-gentleSelect.js`, the
select-box replacement the widget draws each of its blocks with.

The cron side is:

- the grammar (`cron_field`, `combinations`);
- the classifier `getCronType`;
- the display matrix `toDisplay`;
- the serialiser `getCurrentValue`;
- the setter `methods.value`;
- the visibility rule of `periodChanged`;
- `hasError` and `init`;
- the loops that build the option tables.

The gentleSelect side is:

- the option validator `hasError`;
- the label builder `getSelectedAsText`;
- from `init`: the default selection and the grid layout (size, padding, re-threading of the list items);
- the selection sync of `update`.

Files, one module each:

| file | module | models |
|---|---|---|
| `results.dfy` | `Results` | `Option` and `Result` |
| `text.dfy` | `Text` | digits, decimal rendering, `parseInt`, one-character `split`, `join`, substring search |
| `cron_grammar.dfy` | `CronGrammar` | the six shapes, the field recogniser, the range check, the pattern match, `getCronType` and its loops |
| `cron_tables.dfy` | `CronTables` | the option tables and their building loops, the `option:contains` lookup |
| `cron_widget.dfy` | `CronWidget` | `toDisplay`, `getCurrentValue`, `value`, `periodChanged`, `hasError`, `init`, the block options; the `Widget` class |
| `gentle_options.dfy` | `GentleOptions` | the gentleSelect options and `hasError` |
| `gentle_label.dfy` | `GentleLabel` | `getSelectedAsText` |
| `gentle_grid.dfy` | `GentleGrid` | grid size, column-major order, `insertAfter`, the state of the re-threading loop |
| `gentle_select.dfy` | `GentleSelect` | the `SelectBox` class: `init` and `update` |

How the model represents the system:

- **Widget state.** A `Widget` holds:
  - the selected period (the value of the period select);
  - for every block, one selected flag per option of its table;
  - the set of shown elements (each block's select, the text before it, and the text after `mins`);
  - the custom periods;
  - the remembered initial value.
- **Errors.** Where the code raises an error with `$.error`, the model returns a `Failure` or `Rejected` value and leaves the state as it was.
- **Pure code.** `getCronType`, `toDisplay` and `getCurrentValue` are functions.
- **Imperative code.** The range-check loop, the first-match loop, the option-table loops, the `time-mins` loop, the target loop of `value`, the show loop of `periodChanged`, and gentleSelect's padding, re-threading and `update` loops are methods. Each is proved against those functions.

Behaviour of the code worth knowing:

- **Range check.** The range check compares only `parseInt` of a field, which is the first number of a comma list, so `0,99 * * * *` is accepted as an hour entry (`LeadingNumberOnlyExample`).
- **Empty reads.** Reading a block with nothing selected gives an empty field.
- **Minute selections.** For the `time-mins` block, `value` only ever sets options selected and never clears any. `AfterValueSelects` states that the block ends with its old selection plus the listed minutes.
- **Read order.** Reading a block back lists the selected values in option order, not in the order they were selected.

## Model

| member | source | states |
|---|---|---|
| Text.ParseIntPrefix | cron/jquery-cron.js:214 | `parseInt` reads exactly the leading run of digits: a digit string followed by a non-digit yields that string's value |
| Text.JoinSplit | cron/jquery-cron.js:206 | joining the pieces of `split(sep)` with `sep` gives the original string back |
| Text.NumValueOfDecimal | cron/jquery-cron.js:100-137 | the decimal text written into an option's value reads back as the same number |
| Text.SplitJoin | cron/jquery-cron.js:282 | splitting a `join` of pieces free of the separator gives the pieces back |
| CronGrammar.ShapeNamedName | cron/jquery-cron.js:148-155 | the key of each shape names that shape and no other, so `toDisplay.hasOwnProperty(name)` identifies the shape |
| CronGrammar.NamesDistinct | cron/jquery-cron.js:164-182 | two shapes have the same key exactly when they are the same shape |
| CronGrammar.ListPieces | cron/jquery-cron.js:158-161 | the hand-written recogniser for `(\d{1,2},)*\d{1,2}` accepts a string exactly when every comma-separated piece is one or two digits |
| CronGrammar.Listed | cron/jquery-cron.js:158-161 | a list names one number per comma piece, each below 100, in the order written |
| CronGrammar.ParseIntOfList | cron/jquery-cron.js:214-216 | `parseInt` of a list is its first listed number, the only one the range check compares |
| CronGrammar.FirstBadColumnFinds | cron/jquery-cron.js:206-220 | the range check finds no bad column exactly when every field is `*` or in range; otherwise it finds the first out-of-range column, every earlier column being in range |
| CronGrammar.CheckRanges | cron/jquery-cron.js:210-220 | the range-check loop with its early exit returns the first out-of-range column, or none |
| CronGrammar.FirstMatch | cron/jquery-cron.js:223-227 | the first-match result is none exactly when no shape of the list matches; otherwise it is a matching shape of the list |
| CronGrammar.FindPattern | cron/jquery-cron.js:223-227 | the loop over `combinations` returns the first shape whose pattern the string matches, or none |
| CronGrammar.PatternsDisjoint | cron/jquery-cron.js:164-182 | no string matches two different patterns of `combinations` |
| CronGrammar.FirstMatchIsUnique | cron/jquery-cron.js:223-227 | whichever pattern a string matches, the first-match loop returns that shape |
| CronGrammar.CronTypeCases | cron/jquery-cron.js:197-232 | `getCronType` fails with "invalid initial value" exactly when the string is not five space-separated fields each `*` or a list. When it names column c, the string is well-formed and c is its first out-of-range column. When it succeeds, the string is in range and matches the returned shape and no other. It fails as unsupported exactly when the string is well-formed, in range and matches no pattern |
| CronGrammar.CronType | cron/jquery-cron.js:197-232 | `getCronType` as a function: the structural check, then the range check column by column, then the first matching pattern. `CronTypeCases` and `ClassifiedExactly` state what it decides |
| CronGrammar.GetCronType | cron/jquery-cron.js:197-232 | the two loops of `getCronType` compute the classification `CronTypeCases` describes |
| CronGrammar.ClassifiedExactly | cron/jquery-cron.js:197-232 | a string is classified as shape `t` exactly when it is well-formed, in range and matches `t`'s pattern |
| CronGrammar.BothDaysUnsupported | cron/jquery-cron.js:164-182 | no pattern has both a day of the month and a day of the week, so any valid entry listing both is unsupported |
| CronGrammar.BadEntry | cron/jquery-cron.js:210-219 | an entry of well-formed fields whose first out-of-range column is `i` is rejected as invalid value in column `i + 1` |
| CronGrammar.RejectsEmpty | test/test.js:12-15 | the empty string is an invalid initial value |
| CronGrammar.UnsupportedExample | test/test.js:17-20 | `1 1 1 1 1` is valid but unsupported |
| CronGrammar.MinuteExample | test/test.js:22-24 | `* * * * *` is a minute entry |
| CronGrammar.HourExample | test/test.js:26-27 | `1 * * * *` is an hour entry |
| CronGrammar.HourListExample | test/test.js:28 | `1,2 * * * *` is an hour entry |
| CronGrammar.DayExample | test/test.js:31-33 | `1 1 * * *` is a day entry |
| CronGrammar.WeekExample | test/test.js:35-37 | `1 1 * * 1` is a week entry |
| CronGrammar.MonthExample | test/test.js:39-41 | `1 1 1 * *` is a month entry |
| CronGrammar.YearExample | test/test.js:43-44 | `0 0 1 1 *` is a year entry |
| CronGrammar.YearListExample | test/test.js:45 | `1,2 0,1,2 1,2 1,2 *` is a year entry |
| CronGrammar.WeekListExample | test/test.js:122-128 | `0,15,30 5 * * 1,2` is a week entry |
| CronGrammar.WeekListFields | test/test.js:122-128 | the fields of that entry are `0,15,30`, `5`, `*`, `*`, `1,2` |
| CronGrammar.MinuteOutOfRangeExample | cron/jquery-cron.js:208-219 | minute 60 is rejected naming column 1 |
| CronGrammar.HourOutOfRangeExample | cron/jquery-cron.js:208-219 | hour 24 is rejected naming column 2 |
| CronGrammar.DomOutOfRangeExample | cron/jquery-cron.js:208-219 | day of month 0 is rejected naming column 3 |
| CronGrammar.MonthOutOfRangeExample | cron/jquery-cron.js:208-219 | month 13 is rejected naming column 4 |
| CronGrammar.DowOutOfRangeExample | cron/jquery-cron.js:208-219 | day of week 7 is rejected naming column 5 |
| CronGrammar.LeadingNumberOnlyExample | cron/jquery-cron.js:214-216 | `0,99 * * * *` is accepted as an hour entry, because only the leading number is range-checked |
| CronTables.Table | cron/jquery-cron.js:100-138 | the options of a block in document order, one per value its column admits; `TableRange`, `OptionOfValue` and `NumericLabels` state their values and labels |
| CronTables.PeriodTable | cron/jquery-cron.js:141-145 | the period select's options: the custom entries, then the six keys; `PeriodTableShapes` states every key is offered |
| CronTables.MinuteOptions | cron/jquery-cron.js:100-104 | the minute loop builds the 60 options of the `mins` and `time-mins` tables |
| CronTables.HourOptions | cron/jquery-cron.js:106-111 | the hour loop builds the 24 options of the `time-hrs` table |
| CronTables.DomOptions | cron/jquery-cron.js:113-121 | the day-of-month loop builds the 31 options with their ordinal suffixes |
| CronTables.MonthOptions | cron/jquery-cron.js:123-130 | the month loop builds the 12 options, value `i + 1` and the month's name |
| CronTables.DowOptions | cron/jquery-cron.js:132-138 | the day-of-week loop builds the 7 options, value `i` and the day's name |
| CronTables.PeriodOptions | cron/jquery-cron.js:305-331 | the custom-period loop of `init` and the `str_opt_period` loop build the custom entries (value, then key as text) followed by the six periods |
| CronTables.OptionAt | cron/jquery-cron.js:100-138 | option `k` of a block has the value `minval + k` of its column |
| CronTables.TableRange | cron/jquery-cron.js:100-138 | each block offers one option per value its column's range check admits, in ascending order |
| CronTables.OptionOfValue | cron/jquery-cron.js:100-138 | an option's value is the decimal text of `v` exactly when `v` is `minval` plus the option's position |
| CronTables.PeriodTableShapes | cron/jquery-cron.js:140-145 | the period select offers every shape's key after the custom entries |
| CronTables.NumericLabels | cron/jquery-cron.js:100-121 | minute, hour and day-of-month labels start with a digit, and `parseInt` of the label is the option's value |
| CronTables.NamedLabels | cron/jquery-cron.js:123-138 | month and day-of-week labels do not start with a digit |
| CronTables.ZeroPadValue | cron/jquery-cron.js:102-103 | the zero-padded label of a number below 100 is its two digits |
| CronTables.FirstContaining | cron/jquery-cron.js:454 | `find("option:contains(m)").first()` is the first option whose text contains `m`, or none when no text does |
| CronTables.MinuteLookup | cron/jquery-cron.js:446-457 | for a listed minute below 60, the first label containing it is the option whose value is that minute; a listed number of 60 or more finds no option |
| CronTables.LabelContains | cron/jquery-cron.js:100-104 | up to the minute `m` names, a zero-padded label contains `m` only when it is that minute's label |
| CronWidget.Read | cron/jquery-cron.js:247-279 | `find("select").val()` of a block written into the entry: its selected values joined by commas. `ReadField` states it is a list in range, or empty |
| CronWidget.FieldsFor | cron/jquery-cron.js:241-282 | the five fields the switch of `getCurrentValue` assigns; `FieldsForColumn` states each column |
| CronWidget.Serialize | cron/jquery-cron.js:241-283 | `getCurrentValue` on the widget's state; `SerializeFields` and `ValueRoundTrip` state its result |
| CronWidget.Marked | cron/jquery-cron.js:446-460 | the `time-mins` flags after the lookup loop; `MarkedStep` and `MarkedListed` state them |
| CronWidget.Updated | cron/jquery-cron.js:443-467 | the new flags of one target block; `AfterValueSelects` and `UpdatedNonEmpty` state them |
| CronWidget.AfterValue | cron/jquery-cron.js:441-468 | every block's flags after `value`; `AfterValueSelects`, `AfterValueNonEmpty` and `ValueRoundTrip` state them |
| CronWidget.VisibleFor | cron/jquery-cron.js:481-506 | the elements `periodChanged` leaves shown; `VisibleExactly` states which |
| CronWidget.Display | cron/jquery-cron.js:148-155 | each period lists distinct blocks, and only blocks whose column its pattern makes concrete |
| CronWidget.BlockOf | cron/jquery-cron.js:148-155 | for each concrete column of a period, a block that the period displays edits that column |
| CronWidget.DisplayMatchesPattern | cron/jquery-cron.js:148-155 | every concrete column of a period's pattern is edited by one of the blocks `toDisplay` lists for it |
| CronWidget.ReadField | cron/jquery-cron.js:241-283 | a block read back has no space and, when something is selected, is a list whose first number is in its column's range; it is empty when nothing is selected |
| CronWidget.SerializeFields | cron/jquery-cron.js:241-283 | `getCurrentValue` returns a custom period's value verbatim; otherwise five space-separated fields, `*` where the period's pattern has a wildcard and the read-back block elsewhere (`mins` for hour, `time-mins`, `time-hrs`, `dom`, `month`, `dow` for the others) |
| CronWidget.FieldsForColumn | cron/jquery-cron.js:243-275 | the switch of `getCurrentValue` sets column `c` to the block of the period that edits `c`, or leaves it `*` |
| CronWidget.SelectListedValues | cron/jquery-cron.js:461-466 | `.val(field)` on a block selects option `k` exactly when its value is the decimal text of a number the field lists |
| CronWidget.MarkedStep | cron/jquery-cron.js:448-457 | one more listed minute looked up sets the option it finds, if any, and changes nothing else |
| CronWidget.MarkedListed | cron/jquery-cron.js:446-460 | after the `time-mins` loop an option is selected exactly when it was before or its minute is listed |
| CronWidget.AfterTargetsUntouched | cron/jquery-cron.js:441-468 | the target loop leaves every block it does not visit as it was |
| CronWidget.AfterTargetsWritten | cron/jquery-cron.js:441-468 | visiting distinct blocks, each visited block ends with its field written into its old selection |
| CronWidget.AfterValueSelects | cron/jquery-cron.js:441-468 | after `value`, a block the period does not use is unchanged. A used block other than `time-mins` selects exactly its listed values. `time-mins` keeps its old selection and adds the listed minutes |
| CronWidget.AfterValueNonEmpty | cron/jquery-cron.js:441-468 | after `value` accepted a string, every block the period uses has something selected |
| CronWidget.ValueRoundTrip | cron/jquery-cron.js:423-477 | whatever the blocks held, reading the widget back after `value` accepted a string gives a string `getCronType` classifies as the same period |
| CronWidget.WeekMinutes | test/test.js:160-163 | writing the week entry into fresh blocks leaves `time-mins` with exactly 00, 15 and 30 selected |
| CronWidget.WeekFieldsLike | test/test.js:122-128 | the fields of the week entry list minutes 0, 15, 30, hour 5 and weekdays 1, 2 |
| CronWidget.ShownCells | cron/jquery-cron.js:492-504 | showing a list of blocks shows exactly their selects, the text before each, and the text after `mins` |
| CronWidget.VisibleExactly | cron/jquery-cron.js:481-506 | after `periodChanged` an element is shown exactly when its block is in `toDisplay[period]`; a custom period shows none |
| CronWidget.HasError | cron/jquery-cron.js:235-239 | `init` proceeds exactly when the initial value classifies and `customValues` is undefined or an object |
| CronWidget.FreshIsFirstOnly | gentleSelect/jquery-gentleSelect.js:154-158 | freshly built blocks have exactly their first option selected |
| CronWidget.BlockOptionsAccepted | cron/jquery-cron.js:43-93 | the default block options pass gentleSelect's checks; `dow` is a single column and the others are 15×4, 12×2, 6×2 and 10×4 grids |
| CronWidget.Widget.Init | cron/jquery-cron.js:290-421 | `init` fails as `hasError` says and then changes nothing. Otherwise it stores the custom entries and the initial value, and leaves the period at the initial value's shape, the shown elements those of that period, and the fresh blocks with the initial value written into them |
| CronWidget.Widget.Value | cron/jquery-cron.js:423-477 | `value("")` returns `getCurrentValue` and changes nothing. A rejected string returns the error and changes nothing. An accepted string writes its fields into its period's blocks, sets the period select to the shape and shows that period's blocks |
| CronWidget.Widget.WriteTargets | cron/jquery-cron.js:441-468 | the target loop leaves the selection `AfterValue` describes |
| CronWidget.Widget.WriteBlock | cron/jquery-cron.js:443-467 | one target's update changes that block's selection and no other |
| CronWidget.Widget.MarkMinutes | cron/jquery-cron.js:446-460 | the minute loop leaves `time-mins` marked as `Marked` says and the other blocks unchanged |
| CronWidget.Widget.PeriodChanged | cron/jquery-cron.js:481-506 | hiding everything and then showing the period's blocks leaves exactly `VisibleFor(period)` shown |
| CronWidget.Widget.SelectPeriod | cron/jquery-cron.js:336 | choosing an entry of the period select sets the period and shows exactly its blocks |
| GentleOptions.SpeedRejected | gentleSelect/jquery-gentleSelect.js:57-66 | the speed guard as written; `GuardsAgree` states it rejects exactly the unusable speeds, `SpeedExamples` gives cases |
| GentleOptions.EffectRejected | gentleSelect/jquery-gentleSelect.js:67-74 | the effect guard as written; `GuardsAgree` states it rejects exactly what is neither "fade" nor "slide" |
| GentleOptions.FlagRejected | gentleSelect/jquery-gentleSelect.js:75-78 | the `hideOnMouseOut` guard as written; `GuardsAgree` states it rejects exactly the non-booleans |
| GentleOptions.CheckOptions | gentleSelect/jquery-gentleSelect.js:44-80 | `hasError` reports nothing exactly when no rule is broken; otherwise it reports a broken rule, and no rule checked before it is broken |
| GentleOptions.GuardsAgree | gentleSelect/jquery-gentleSelect.js:57-78 | each guard as written rejects exactly the values its rule forbids |
| GentleOptions.CheckOptionsAcceptable | gentleSelect/jquery-gentleSelect.js:44-80 | options pass exactly when there are not both `rows` and `columns`, `itemWidth` comes with either, both speeds are usable, both effects are "fade" or "slide", and `hideOnMouseOut` is a boolean |
| GentleOptions.SpeedExamples | gentleSelect/jquery-gentleSelect.js:57-66 | numbers, "slow", "fast" and values that are neither numbers nor strings are usable speeds; undefined and other strings are not |
| GentleOptions.DefaultsAcceptable | gentleSelect/jquery-gentleSelect.js:24-37 | the plugin's defaults pass `hasError` |
| GentleLabel.KeptCount | gentleSelect/jquery-gentleSelect.js:89-99 | how many texts the label keeps: all unless cut, otherwise what `slice(0, maxDisplay)` keeps (counting from the end for a negative bound), never more than there are |
| GentleLabel.SelectedAsText | gentleSelect/jquery-gentleSelect.js:82-143 | `getSelectedAsText` on the selected texts; `LabelCases`, `Entries` and `NumericLabelsSorted` state what it shows, `GetSelectedAsText` computes it |
| GentleLabel.InsertSorted | gentleSelect/jquery-gentleSelect.js:113-136 | inserting by leading number into a sorted list keeps it sorted |
| GentleLabel.SortByKey | gentleSelect/jquery-gentleSelect.js:113-136 | the numeric sort returns a permutation of the texts in ascending order of leading number |
| GentleLabel.Entries | gentleSelect/jquery-gentleSelect.js:88-139 | the label keeps the first `maxDisplay` texts (all for 0), as a permutation. They are sorted by leading number when all start with a digit and kept in order otherwise. "..." follows when the list was cut |
| GentleLabel.GetSelectedAsText | gentleSelect/jquery-gentleSelect.js:82-143 | the function as written, with its early-exit numeric scan, computes the label `Entries` describes, joined by `<br/>`, or the prompt when nothing is selected |
| GentleLabel.LabelCases | gentleSelect/jquery-gentleSelect.js:84-100 | no selection shows the prompt; `maxDisplay` 0 shows every text; a cut keeps `maxDisplay` texts followed by "..." |
| GentleLabel.NumericLabelsSorted | gentleSelect/jquery-gentleSelect.js:103-136 | labels that all start with a digit come out in ascending order of their leading number, as a permutation of the input |
| GentleLabel.DayNamesExample | test/test.js:150-153 | the label of the selected Monday and Tuesday is `Monday<br/>Tuesday`, whose text is `MondayTuesday` |
| GentleGrid.CeilDiv | gentleSelect/jquery-gentleSelect.js:204 | `Math.ceil(n / d)` is the least whole number whose product with `d` reaches `n` |
| GentleGrid.GridSize | gentleSelect/jquery-gentleSelect.js:202-208 | with `columns` the rows are the ceiling of the item count over the columns, and with `rows` the reverse; the grid holds every item, and the computed count is the least that does (so the last row, or column, holds at least one real item; padding may still fill whole columns, or rows, of the other dimension) |
| GentleGrid.ColumnMajorInRange | gentleSelect/jquery-gentleSelect.js:217-228 | column-major order names only items of the padded list |
| GentleGrid.ColumnMajorDistinct | gentleSelect/jquery-gentleSelect.js:217-228 | column-major order names no item twice |
| GentleGrid.ColumnMajorCovers | gentleSelect/jquery-gentleSelect.js:217-228 | every item of the padded list appears in column-major order, item `m` at row `m mod rows`, column `m div rows` |
| GentleGrid.PositionOfItem | gentleSelect/jquery-gentleSelect.js:217-228 | reading the grid back inverts column-major order |
| GentleGrid.MoveAfterPermutes | gentleSelect/jquery-gentleSelect.js:224 | `insertAfter` rearranges the list without adding or losing items |
| GentleGrid.MoveAfterBack | gentleSelect/jquery-gentleSelect.js:224 | moving an item after its own predecessor leaves the list as it was |
| GentleGrid.ThreadedStart | gentleSelect/jquery-gentleSelect.js:217-218 | before the loop there are no chains and every item is unvisited |
| GentleGrid.StartStep | gentleSelect/jquery-gentleSelect.js:220-221 | visiting one of the first `rows` items starts that row's chain and moves nothing |
| GentleGrid.MoveStepAt | gentleSelect/jquery-gentleSelect.js:222-226 | visiting a later item moves it after the end of its row's chain, which it becomes |
| GentleGrid.FinalOrder | gentleSelect/jquery-gentleSelect.js:217-228 | once every item is visited, the chains read row after row are column-major order |
| GentleGrid.ThreadedDone | gentleSelect/jquery-gentleSelect.js:219-228 | after the last visit the list is in column-major order |
| GentleSelect.DefaultSelection | gentleSelect/jquery-gentleSelect.js:154-158 | with nothing selected the first option becomes selected and no other; otherwise nothing changes |
| GentleSelect.Picked | gentleSelect/jquery-gentleSelect.js:154 | `find(":selected")` gives the entries whose flag is set; it is empty exactly when nothing is selected |
| GentleSelect.CurrentValues | gentleSelect/jquery-gentleSelect.js:256 | `val()` of a multiple select is the values of its selected options; of a single select, at most one value, the value of the first selected option |
| GentleSelect.MarksFollowSelection | gentleSelect/jquery-gentleSelect.js:256-261 | with distinct values, an item of a multiple select is in the current value set exactly when its option is selected, and an item of a single select exactly when its option is the first selected one |
| GentleSelect.LayoutOf | gentleSelect/jquery-gentleSelect.js:192-208 | a grid is used exactly when `columns` or `rows` is defined, with `columns` taking precedence |
| GentleSelect.SelectBox.Init | gentleSelect/jquery-gentleSelect.js:146-228 | `init` fails as `hasError` says and then changes nothing. Otherwise it applies the default selection, builds the label from the selected texts and marks the selected items. Without a grid the items stay in document order; with one they are padded to `rows × cols` and end in column-major order |
| GentleSelect.SelectBox.Pad | gentleSelect/jquery-gentleSelect.js:211-214 | the padding loop appends dummy items until the list holds exactly `rows × cols` |
| GentleSelect.SelectBox.InsertAfter | gentleSelect/jquery-gentleSelect.js:224 | `insertAfter` moves the item just after the target and changes nothing else |
| GentleSelect.SelectBox.Visit | gentleSelect/jquery-gentleSelect.js:219-227 | one visit of the re-threading loop keeps the chain invariant |
| GentleSelect.SelectBox.Reorder | gentleSelect/jquery-gentleSelect.js:216-228 | the re-threading loop leaves the items in column-major order |
| GentleSelect.SelectBox.Update | gentleSelect/jquery-gentleSelect.js:252-268 | `update` marks exactly the items whose value is in the select's current value set and rebuilds the label from the selected texts |

## Left out

- DOM construction, CSS, rendering, animations, widths, titles and the dialog event handlers: they are presentation. Visibility is a set of elements.
- `$.extend` option merging. `BlockOptions` writes out the merged default options of each block; user-supplied block options are not modelled.
- jQuery's `.val(field)` on a multiple select. It is taken to select exactly the options whose value is a listed number (`SelectListed`).
- The `:contains` selector. It is modelled as plain substring search over the option texts.
- Fields are split on one ASCII space. The regex `\s` also admits tab and newline, which `split(" ")` then misreads; that case is not modelled.
- `getCronType` on a non-string argument, and `value` with `undefined`: the argument is always a string here, and only `""` is falsy.
- The `$.error` exceptions: these become `Failure` and `Rejected` results, with the state left unchanged.
- `GentleLabel.Entries`: non-numeric labels are kept in document order. The code sorts them with a comparator that returns a boolean from a DOM lookup, which is not a valid comparator, so the order the browser produces is not modelled. `LabelCases` states the result only up to permutation.
- `onChange` chaining, the `change` trigger, `url_set` and `console.log`: event and I/O plumbing. The period select's `change` is modelled as a direct call of `PeriodChanged`.
- Empty-selection reads. `val()` of an empty multiple select is `null`, which `join` renders as an empty field. `Read` gives the empty string; `ReadField` states it.
- `GentleSelect.LayoutOf`: `columns`/`rows` below 1 or not numbers are excluded by `requires`. `parseInt` of such values gives `NaN` or zero, and the code then divides by it.
- `GentleSelect.SelectBox.Init`: takes the same `requires` on `columns`/`rows` as `LayoutOf`.
- `GentleSelect.SelectBox.Init`: a select with no options is excluded by `requires`. On such a select the code hides it and then fails with a TypeError when it sets `$selectedEls[0].selected`, since there is no first option; that crash is not modelled.
- `GentleSelect.CurrentValues`: for a single select with nothing selected the model gives no value. The browser then reports its first option; that case is not modelled.
- `GentleSelect.SelectBox.Init`: an item is marked when its option is selected. The code reads `.attr("selected")`; the model assumes jQuery 1.6.1 to 1.8, where that reports the selected property. From jQuery 1.9 on it reads the HTML attribute, which the default selection made by setting the property does not set, so the default item would not be marked.
- The `gentleSelect` boxes of the cron blocks are not linked into `CronWidget`. The widget keeps each block's selected flags, that is, the state of the underlying select box.
- `CronWidget.Updated`: when a field is not a list it leaves the flags alone. `value` never writes such a field, because `getCronType` accepted it.
- `CronWidget.Widget.MarkMinutes` works on a local copy of the `time-mins` flags and writes it back once. The code sets each option in place; the result is the same.
- `CronWidget.Widget.Init` sets the period select's first entry before calling `value`, which then sets the period.
