# data-review-tools: a verified model of the sample-rejection core

data-review-tools reviews OOI oceanographic data served from THREDDS
catalogs. Its scripts do the following:

- Read the per-deployment NetCDF files of one instrument.
- Collect each science variable's time stamps, pressures and values into
  parallel arrays.
- Reject erroneous samples in a fixed chain: fill values, NaNs, extreme
  values, the optional global range, suspect-time windows and an optional
  depth cutoff.
- Group the rest into depth bins. From those bins they draw profiles,
  write data-range tables and derive 3-sigma outlier windows.
- A file-analysis script checks each file: its variable lists, deployment
  dates, sampling rate and time stamps.

This project models that core in Dafny and proves its properties. It is
split into the following modules:

- `QualityFilter`:
  - Parallel arrays `Series(t, y, z)` with values `Num(real) | NaN`. Every
    stage is one boolean mask applied to all three arrays.
  - Each stage is proved equal to a reference `Filter` on the rows of the
    arrays.
  - The erroneous-data chain, the depth cutoff and the skip checks.
  - The exclusion-window loop, and the removal of single excluded time
    stamps.
- `DepthBinning`: Python `round` and `range`, the depth-bin boundaries, and
  grouping by bin.
- `OutlierWindows`: the per-group envelope and the `time_exclude` date
  pairs. The standard deviation is any non-negative function.
- `Catalog`: catalog URL parsing into a reference designator and a
  method-stream, and the first-seen designator and method-stream lists.
- `Deployments`: deployment names and numbers, and both readings of the
  number used by the plotting scripts. Also the deployment filter and the
  comma-joined deployments column.
- `RangeReport`: the data urls of one designator and the preferred-stream
  files. Also the excluded-time list and the rows of the data-range table.
- `ScienceData`:
  - The science-variable dictionary.
  - The per-variable arrays grown file by file. This one is a class whose
    methods update its fields.
  - The pressure unit and name lists, the time-slice skip and the file
    selection by method-stream.
- `FileAnalysis`:
  - `compare_lists` and `eliminate_common_variables`.
  - Deployment lookup and the days-deployed count.
  - Sampling-rate classification.
  - The unique and ascending time-stamp tests.
  - The NaN and fill counts.
  - `insert_into_dict`, modelled as a class over a map.
- `Strings` and `Collections`: `str.split`, `str.join`, `int()` on digit
  strings, `'%04d'`, and add-if-absent lists with first-seen order.

Time stamps are whole seconds, and the day of a time stamp is
`t / 86400`. All the scripts that take external input get it as
parameters: file contents, database records, review tables and the
standard deviation.

## Model

| member | source | states |
|---|---|---|
| Catalog.SecondLastSegment | plotting/scripts/plot_deployment_3Dcolor_scatter.py:25 | `url.split('/')[-2]` exists exactly when the URL splits into at least two segments |
| Catalog.Subsite | plotting/scripts/plot_deployment_3Dcolor_scatter.py:28 | the subsite is the longest prefix of the designator free of '-', followed by '-' when shorter |
| Catalog.ArrayCode | plotting/scripts/plot_deployment_3Dcolor_scatter.py:29 | the array code is a prefix of the subsite holding its first two characters, or all of a shorter subsite |
| Catalog.MainSensor | plotting/scripts/plot_deployment_3Dcolor_scatter.py:30 | the main sensor is the longest suffix of the designator free of '-', preceded by '-' when shorter |
| Catalog.SplitLastPiece | plotting/scripts/plot_deployment_3Dcolor_scatter.py:30 | `s.split(c)[-1]` is a suffix of `s` free of `c`; it is all of `s` when there is one piece, and is otherwise preceded by `c` |
| Catalog.ParseUrl | plotting/scripts/plot_deployment_3Dcolor_scatter.py:25-30 | a URL parses exactly when its designator and method-stream exist, and the result holds those two |
| Catalog.SegmentOfUrl | plotting/scripts/plot_deployment_3Dcolor_scatter.py:25 | the second-last segment of `prefix/seg/page` is `seg` whenever `seg` and `page` hold no '/' |
| Catalog.MethodStreamOfUrl | plotting/scripts/plot_deployment_3Dcolor_scatter.py:27 | when no earlier character of the URL starts the designator, the text after `rd + '-'` up to the next '/' is the method-stream |
| Catalog.RefDesOfCatalogUrl | plotting/scripts/plot_deployment_3Dcolor_scatter.py:25-26 | the designator of a well-formed catalog URL is subsite-node-port-sensor |
| Catalog.ParseCatalogUrl | plotting/scripts/plot_deployment_3Dcolor_scatter.py:25-30 | parsing a well-formed catalog URL recovers designator, method-stream, subsite, array code and main sensor |
| Catalog.AllRefDes | data_review/scripts/nc_file_analysis.py:64-66 | the designators of all URLs exist exactly when every URL has one, in URL order |
| Catalog.FirstSeen | data_review/data_range.py:37-40 | a first-seen list has no repeats, has the same members as its input, and keeps first-occurrence order |
| Catalog.DesignatorList | data_review/scripts/nc_file_analysis.py:63-68 | the `rd_list` loop fails exactly when some URL has no designator, and otherwise yields the designators deduplicated in first-seen order |
| Catalog.DesignatorAndStreamLists | data_review/data_range.py:31-40 | the `rd_list`/`ms_list` loop yields both lists deduplicated in first-seen order, or fails exactly when some URL does not parse |
| Collections.AddIfAbsent | plotting/scripts/plot_all_depth_profiles.py:119-122 | append-if-absent keeps the old list as a prefix, adds at most the new element, and keeps a list free of repeats |
| Collections.DedupFirstSeenOrder | plotting/scripts/plot_all_depth_profiles.py:42-45 | the deduplicated list orders its entries by their first occurrence |
| Collections.Select | plotting/scripts/plot_all_depth_profiles.py:88 | a list comprehension with a condition never lengthens the list |
| Collections.SelectMembers | plotting/scripts/plot_all_depth_profiles.py:88 | the comprehension keeps an entry exactly when it occurs in the list and passes the condition |
| Collections.SelectAppend | data_review/scripts/nc_file_analysis.py:234 | filtering a concatenation gives the concatenation of the filtered parts |
| Collections.SelectOne | data_review/scripts/nc_file_analysis.py:234 | a single entry is kept exactly when it passes |
| Collections.SelectAll | plotting/scripts/plot_all_depth_profiles.py:88 | when every entry passes, the filter keeps the whole list |
| Collections.DistinctCard | data_review/scripts/nc_file_analysis.py:228 | a list without repeats has exactly as many distinct values as entries, which is what `len(np.unique(...))` counts |
| Collections.DedupLength | data_review/scripts/nc_file_analysis.py:203-204 | deduplication never lengthens a list, and keeps the length exactly when the list has no repeats |
| Strings.JoinSplitOn | data_review/data_range.py:34-35 | joining the pieces of a split with the same separator gives back the string |
| Strings.SplitOnJoin | data_review/data_range.py:34-35 | splitting a join of separator-free parts gives back the parts |
| Strings.ParseZeroPadded | data_review/scripts/nc_file_analysis.py:94 | `int()` of a zero-padded decimal gives back the number |
| Deployments.DeploymentName | data_review/scripts/nc_file_analysis.py:94 | `'deployment%04d' % n` is the prefix `deployment` followed by at least four digits |
| Deployments.DeploymentNumber | data_review/scripts/nc_file_analysis.py:125 | `int(name[-4:])` succeeds exactly when the name is non-empty and its last four (or fewer) characters are digits, and gives a value below 10000 |
| Deployments.NameNumberRoundTrip | data_review/scripts/nc_file_analysis.py:94 | reading the number of the name built from `n < 10000` gives `n` back |
| Deployments.DeploymentNumberAsWritten | plotting/scripts/plot_deployment_3Dcolor_scatter.py:71 | `int(name.split('0')[-1])` succeeds exactly when the text after the last '0' is a non-empty digit string |
| Deployments.AsWrittenFailsOnTrailingZero | plotting/scripts/plot_deployment_3Dcolor_scatter.py:71 | every name ending in '0' makes the `split('0')` reading fail |
| Deployments.AsWrittenFailsOnTen | plotting/scripts/plot_deployment_3Dcolor_scatter.py:71 | deployment 10 cannot be read back through `split('0')`, while `[-4:]` gives 10 |
| Deployments.AsWrittenMisreadsHundredOne | plotting/scripts/plot_deployment_depth_profiles.py:79 | deployment 101 is read as 1 through `split('0')`, while `[-4:]` gives 101 |
| Deployments.DeploymentSelected | plotting/scripts/plot_deployment_3Dcolor_scatter.py:70-73 | with no deployment asked for every file is kept; otherwise a file is kept exactly when its number is the one asked for, with an error exactly when the number does not parse |
| Deployments.DeploymentSelectedAsWritten | plotting/scripts/plot_deployment_depth_profiles.py:78-81 | the same filter through the `split('0')` reading |
| Deployments.SelectedExactly | plotting/scripts/plot_deployment_3Dcolor_scatter.py:70-73 | asking for deployment `m` keeps the files of deployment `n` exactly when `n == m` |
| Deployments.SelectedAsWrittenWrong | plotting/scripts/plot_deployment_3Dcolor_scatter.py:70-73 | as written, asking for deployment 10 fails on its own files, and asking for deployment 1 keeps deployment 101 |
| Deployments.DeploymentNumbers | data_review/data_range.py:90-95 | the `deployments` loop yields the number of every preferred-stream row, or fails on the first name that does not parse |
| Deployments.DeploymentNumbersMeaning | data_review/data_range.py:90-95 | the list exists exactly when every name parses, and then has one entry per row holding that row's number |
| Deployments.DeploymentsColumn | data_review/data_range.py:349-352 | `t_deploy` is the decimal numbers joined by ', ', and fails exactly on an empty list |
| Deployments.DeploymentsColumnRoundTrip | data_review/data_range.py:349-352 | splitting the column at ', ' and parsing each piece gives the deployment numbers back in order |
| QualityFilter.Mask | plotting/scripts/plot_deployment_depth_profiles.py:177-181 | one mask applied to t, y and z keeps them aligned, and keeps exactly the masked rows in order |
| QualityFilter.Stage | plotting/scripts/plot_deployment_depth_profiles.py:177-197 | computing a criterion's mask and indexing all arrays with it equals the reference filter on the rows |
| QualityFilter.FilterMembers | plotting/scripts/plot_deployment_depth_profiles.py:177-216 | a row survives a stage exactly when it was there and passes, and no stage lengthens the arrays |
| QualityFilter.FilterIdentity | plotting/scripts/plot_deployment_depth_profiles.py:212-215 | a stage changes nothing exactly when every row passes it |
| QualityFilter.FilterIdempotent | plotting/scripts/plot_deployment_depth_profiles.py:177-216 | applying a stage twice is the same as applying it once |
| QualityFilter.FilterCommute | plotting/scripts/plot_deployment_depth_profiles.py:176-216 | the order of two stages does not change what survives |
| QualityFilter.FilterAllMembers | plotting/scripts/plot_deployment_depth_profiles.py:176-216 | a row survives a run of stages exactly when it passes every one, and the run never lengthens the arrays |
| QualityFilter.RejectFill | plotting/scripts/plot_deployment_depth_profiles.py:176-182 | the fill stage keeps exactly the rows whose value differs from the fill value (NaN always differs) |
| QualityFilter.RejectNaN | plotting/scripts/plot_deployment_depth_profiles.py:184-190 | the NaN stage, with its mask computed on the fill-free values, keeps exactly the numeric rows |
| QualityFilter.RejectExtreme | plotting/scripts/plot_deployment_depth_profiles.py:192-198 | the extreme-value stage keeps exactly the rows with `abs(z) <= 1e7` |
| QualityFilter.RejectOutsideGlobalRange | plotting/scripts/plot_deployment_depth_profiles.py:200-216 | with both bounds numeric, the global-range stage keeps the rows within them; otherwise the arrays pass unchanged |
| QualityFilter.RejectErroneous | plotting/scripts/plot_deployment_depth_profiles.py:176-216 | the chain is fill, then NaN, then extreme, then the optional global range, and keeps the arrays aligned |
| QualityFilter.ErroneousChainMeaning | plotting/scripts/plot_deployment_depth_profiles.py:176-216 | a row survives the chain exactly when its value is a number, differs from the fill value, is not extreme, and is within the global range when one is known |
| QualityFilter.GlobalRangeMembers | plotting/scripts/plot_deployment_depth_profiles.py:205-215 | a row survives the global-range stage exactly when it was there and, if both bounds are known, lies within them |
| QualityFilter.RejectDeeper | data_review/data_range.py:312-320 | the depth cutoff is the identity without `zdbar`, and otherwise keeps exactly the rows with `y < zdbar` |
| QualityFilter.DepthCutoffMeaning | plotting/scripts/plot_deployment_depth_profiles.py:285-289 | the selected-depth view holds exactly the rows shallower than `zdbar` |
| QualityFilter.CountNaN | data_review/data_range.py:218 | `sum(isnan(z)) == len(z)` holds exactly when every value is NaN |
| QualityFilter.CountDiffering | data_review/data_range.py:222 | `len(z[z != fv]) == 0` holds exactly when no value differs from the fill value |
| QualityFilter.SkipCheck | data_review/data_range.py:204-224 | a variable is skipped for no time stamps, else for all NaN, else for all fill, and each reason holds exactly when its condition does; it passes exactly when it has data, a number and a value other than the fill value |
| QualityFilter.NaNOrFillLeavesNothing | data_review/data_range.py:217-226 | values that are all NaN or fill leave nothing after the chain |
| QualityFilter.SkipCheckDoesNotPromiseData | data_review/data_range.py:217-226 | a mix of NaNs and fill values passes the skip checks and still leaves nothing after the chain |
| QualityFilter.RejectNaNUnfilteredMask | plotting/scripts/plot_all_depth_profiles.py:203-206 | the mask built on the unfiltered values can index the fill-free arrays only when the two lengths agree |
| QualityFilter.UnfilteredNaNMaskFails | plotting/scripts/plot_deployment_3Dcolor_scatter.py:139-142 | one fill value among the values makes the NaN stage as written fail |
| QualityFilter.ExcludeOne | plotting/scripts/plot_deployment_depth_profiles.py:310-325 | one exclusion row removes exactly the rows with `ts <= t <= te`, whether or not the skip tests fire, and fails exactly on empty arrays |
| QualityFilter.ExcludeRowsRemovesUnion | plotting/scripts/plot_deployment_depth_profiles.py:307-325 | a completed exclusion loop has removed exactly the union of the closed windows |
| QualityFilter.ExcludeRowsDefined | plotting/scripts/plot_deployment_depth_profiles.py:307-325 | the loop fails exactly when the earlier rows have already removed every sample before some row is read |
| QualityFilter.DisjointWindowUnchanged | plotting/scripts/plot_deployment_depth_profiles.py:315-318 | a window that no time stamp falls in leaves the arrays unchanged |
| QualityFilter.ApplyExclusionRows | plotting/scripts/plot_deployment_depth_profiles.py:307-325 | the row-by-row loop computes the exclusion of all rows in order |
| QualityFilter.RemoveTime | data_review/data_range.py:290-300 | removing one excluded time stamp keeps the rows at other times, and keeps the arrays as they were when nothing would remain |
| QualityFilter.RemoveTimesKeepsData | data_review/data_range.py:290-300 | removing excluded time stamps never empties non-empty arrays |
| QualityFilter.RemoveTimesExact | data_review/data_range.py:290-300 | when some row lies at none of the excluded times, exactly the rows at excluded times are removed |
| DepthBinning.RoundHalfEven | data_review/data_range.py:339-340 | `round(x)` is within one half of `x`, and a tie goes to the even integer |
| DepthBinning.PyRange | data_review/data_range.py:341 | `range(start, stop, step)` fails exactly on a zero step; element `i` is `start + i*step`, all are on the start's side of `stop` and one more step would reach it |
| DepthBinning.RangeIncreasing | data_review/data_range.py:341 | an ascending range is strictly increasing |
| DepthBinning.DepthRangesAsWritten | data_review/data_range.py:339-341 | the boundaries exist exactly when there are pressures and the bin size is non-zero |
| DepthBinning.DepthRangesShape | data_review/data_range.py:339-341 | the boundaries start at `round(min(y) - size)`, step by `size`, stay below `round(max(y) + size)`, and one more step would reach it |
| DepthBinning.DepthRangesCover | data_review/data_range.py:339-341 | with the stop moved one step up there are at least two boundaries, and every pressure lies in `[first, last)` |
| DepthBinning.GroupByDepth | data_review/data_range.py:344 | there is one group per pair of consecutive boundaries, holding the rows in that bin |
| DepthBinning.GroupsCount | data_review/data_range.py:344 | over ascending boundaries the group sizes add up to the number of rows between the first and the last boundary |
| DepthBinning.GroupsDisjoint | data_review/data_range.py:344 | no row lies in two groups |
| DepthBinning.CorrectedGroupsKeepAll | data_review/data_range.py:339-344 | with the corrected boundaries the group sizes add up to the number of samples, so no sample is lost |
| DepthBinning.CorrectedRangesAscending | data_review/data_range.py:339-341 | the corrected boundaries are non-empty and ascending, as the group lemmas require |
| DepthBinning.AsWrittenLosesDeepestSample | plotting/scripts/plot_deployment_depth_profiles.py:219-225 | as written, one sample at 10.4 dbar with 10 dbar bins gets boundaries 0 and 10, and lies in no group |
| DepthBinning.CorrectedKeepsDeepestSample | plotting/scripts/plot_deployment_depth_profiles.py:219-225 | with the corrected stop, the same sample gets boundaries 0, 10 and 20 |
| OutlierWindows.MeanBetweenMinAndMax | plotting/scripts/plot_deployment_depth_profiles.py:240-242 | the mean of a non-empty group lies between its minimum and maximum |
| OutlierWindows.UpperLimit | plotting/scripts/plot_deployment_depth_profiles.py:244 | mean + 3 std is a number exactly when the group has at least two values (pandas std is NaN for one value) |
| OutlierWindows.LowerLimit | plotting/scripts/plot_deployment_depth_profiles.py:245 | mean - 3 std is a number exactly when the group has at least two values |
| OutlierWindows.EnvelopeOrdered | plotting/scripts/plot_deployment_depth_profiles.py:238-245 | every group's envelope has min <= mean <= max when it has values, and mean - 3 std <= mean <= mean + 3 std when it has two or more |
| OutlierWindows.OutlierTimesMembers | plotting/scripts/plot_deployment_depth_profiles.py:247-248 | the outlier times are exactly the times of the group's values beyond the limit |
| OutlierWindows.DayPair | plotting/scripts/plot_deployment_depth_profiles.py:249-251 | a non-empty set of outlier times adds exactly two dates, and an empty one adds none |
| OutlierWindows.DayPairBounds | plotting/scripts/plot_deployment_depth_profiles.py:249-251 | the pair is ordered, and the day of every outlier lies within it |
| OutlierWindows.GroupWindowsPairs | plotting/scripts/plot_deployment_depth_profiles.py:247-257 | what one group adds is a list of ordered date pairs |
| OutlierWindows.GroupWindowsCoverOutliers | plotting/scripts/plot_deployment_depth_profiles.py:247-251 | every value above mean + 3 std has its day inside the first pair the group adds |
| OutlierWindows.GroupWindowsCoverLowOutliers | plotting/scripts/plot_deployment_depth_profiles.py:253-257 | every value below mean - 3 std has its day inside the last pair the group adds |
| OutlierWindows.SmallGroupNoWindows | plotting/scripts/plot_deployment_depth_profiles.py:243-257 | a group with fewer than two values adds no dates |
| OutlierWindows.TimeExcludePairs | plotting/scripts/plot_deployment_depth_profiles.py:228-257 | `time_exclude` has even length, and each pair is ordered |
| OutlierWindows.AppendDayPair | plotting/scripts/plot_deployment_depth_profiles.py:249-251 | the append step adds the day pair of the times, or nothing when there are none |
| OutlierWindows.AppendGroupWindows | plotting/scripts/plot_deployment_depth_profiles.py:247-257 | one loop body adds the pair for the values above the envelope, then the pair for those below |
| OutlierWindows.Envelopes | plotting/scripts/plot_deployment_depth_profiles.py:228-257 | the group loop records one envelope per group in group order, and `time_exclude` is the concatenation of every group's ordered pairs |
| RangeReport.UrlsOfMembers | data_review/data_range.py:66-72 | a url is collected for designator `r` exactly when its designator is `r` |
| RangeReport.DesignatorUrls | data_review/data_range.py:65-72 | the `datasets` loop keeps exactly the urls of designator `r`, in order (every url already has a designator, since the list loop at lines 31-40 stops otherwise) |
| RangeReport.PreferredFilesMembers | data_review/data_range.py:78-82 | a file is a final dataset exactly when some preferred row's deployment and stream both occur in it |
| RangeReport.PreferredDatasets | data_review/data_range.py:78-82 | the nested loops list, row by row, the files of that row in file order |
| RangeReport.ExcludedTimeList | data_review/data_range.py:279-282 | `list_time` is the cells of the variable's rows, each split at ', ', in row order |
| RangeReport.ExcludedTimesMembers | data_review/data_range.py:279-282 | a time is listed exactly when it is a piece of a cell of a row naming the variable |
| RangeReport.ExclusionRunsIffRowFound | data_review/data_range.py:284-285 | the suspect-time rejection runs exactly when some review row names the variable |
| RangeReport.StatBlock | data_review/data_range.py:347-352 | a variable's `stat_data` has one row per depth group, each tagged with the variable and the deployments column |
| RangeReport.StatTableNoPressure | data_review/data_range.py:336-354 | every row of the intended table belongs to a non-pressure variable and to one of its groups |
| RangeReport.BuildStatTable | data_review/data_range.py:336-354 | the append loop builds the concatenation of the non-pressure variables' blocks |
| RangeReport.StaleRowsForPressure | data_review/data_range.py:354 | as written, a pressure variable after a temperature variable repeats the temperature rows |
| RangeReport.AsWrittenAgreesWithoutPressure | data_review/data_range.py:336-354 | with no pressure variable, the loop as written builds the intended table |
| RangeReport.PressureFirstFails | data_review/data_range.py:336-354 | as written, a pressure variable first stops the report (NameError on `stat_data`) |
| ScienceData.SciVarsMeaning | plotting/scripts/plot_deployment_depth_profiles.py:58-61 | a name is a science variable exactly when some 'Science Data' parameter has it, and maps to the unit of the last such parameter |
| ScienceData.ScienceVars | plotting/scripts/plot_deployment_depth_profiles.py:58-61 | the parameter loop builds that dictionary |
| ScienceData.StreamSciVarsMeaning | plotting/scripts/plot_all_depth_profiles.py:95-105 | only `ms` can be a key; it is one exactly when some stream has that method-stream, and it then holds the science variables of the last such stream |
| ScienceData.StreamSciVars | plotting/scripts/plot_deployment_3Dcolor_scatter.py:40-50 | the stream loop, which replaces `vars` only when it is non-empty, builds that dictionary |
| ScienceData.SciVar.Absorb | plotting/scripts/plot_deployment_3Dcolor_scatter.py:77-99 | a file whose units match the database units adds its fill value and units (each if absent) and appends its arrays; any other file changes nothing; no list gets repeats |
| ScienceData.SciVar.AbsorbAll | plotting/scripts/plot_deployment_3Dcolor_scatter.py:56-99 | over all files, the arrays grow by the matching files' arrays in file order; the fill values are the old ones followed by each matching file's fill value, kept only the first time it appears; the units become the database unit once some file matches, and are unchanged otherwise |
| ScienceData.AbsorbFilesParts | plotting/scripts/plot_deployment_3Dcolor_scatter.py:76-99 | the loop body applied to the first n files leaves, field by field, the arrays, fill values and units just described |
| ScienceData.AbsorbedStep | plotting/scripts/plot_deployment_3Dcolor_scatter.py:78-99 | one more file, matching or not, keeps that description of every field |
| ScienceData.FillValuesSeen | plotting/scripts/plot_deployment_3Dcolor_scatter.py:79-80 | after the file loop the old fill values stay unchanged in front, no fill value repeats, and a value is recorded exactly when it was there before or is the fill value of a matching file |
| ScienceData.MatchedAligned | plotting/scripts/plot_deployment_3Dcolor_scatter.py:85-99 | aligned files give the time, value and pressure arrays equal lengths |
| ScienceData.UnitOfData | data_review/data_range.py:208 | a units list without repeats that only ever receives the database unit is exactly that unit, so `units[0]` is the database unit |
| ScienceData.PressureLabels | plotting/scripts/plot_deployment_3Dcolor_scatter.py:101-104 | `y_unit` and `y_name` never repeat, hold exactly the labels seen, and keep first-seen order |
| ScienceData.Collapse | plotting/scripts/plot_all_depth_profiles.py:160-168 | a label list collapses to its one entry exactly when it has exactly one entry |
| ScienceData.CollapseDedup | plotting/scripts/plot_all_depth_profiles.py:139-168 | the collected labels collapse to `x` exactly when files were seen and every one carried `x` |
| ScienceData.SkipForTimeRange | plotting/scripts/plot_deployment_3Dcolor_scatter.py:61-65 | a dataset is skipped exactly when both bounds are given and none of its time stamps lies within them |
| ScienceData.FilesContaining | plotting/scripts/plot_all_depth_profiles.py:88 | `fdatasets_sel` holds exactly the files whose name contains `ms`, and all files when all do |
| ScienceData.FilesContainingKeepsOrder | plotting/scripts/plot_all_depth_profiles.py:88 | the selection of a concatenation is the concatenation of the selections, and one file is kept exactly when its name contains `ms`, so the kept files stay in their order |
| FileAnalysis.CompareListsMembers | data_review/scripts/nc_file_analysis.py:24-32 | `match` holds exactly the entries of `list1` that are in `list2`, and `unmatch` exactly those that are not |
| FileAnalysis.CompareListsPartition | data_review/scripts/nc_file_analysis.py:24-32 | together the two lists hold every entry of `list1` exactly as often, so their lengths add up |
| FileAnalysis.CompareLists | data_review/scripts/nc_file_analysis.py:24-32 | the loop computes both lists in `list1` order |
| FileAnalysis.EliminateCommonVariables | data_review/scripts/nc_file_analysis.py:35-40 | a name is kept exactly when none of the seven common words occurs in it as a whole word |
| FileAnalysis.EliminateCommonKeepsOrder | data_review/scripts/nc_file_analysis.py:35-40 | the filter of a concatenation is the concatenation of the filters, and one name is kept exactly when it mentions no common word, so the kept names stay in their order |
| FileAnalysis.CommonWordFramed | data_review/scripts/nc_file_analysis.py:37-38 | a common word bounded by non-word characters or the ends of the name is found |
| FileAnalysis.GluedWordIgnored | data_review/scripts/nc_file_analysis.py:38 | a common word glued to a word character is not a whole-word match there |
| FileAnalysis.DropQc | data_review/scripts/nc_file_analysis.py:234 | a name is kept exactly when it does not contain 'qc' |
| FileAnalysis.DropQcKeepsOrder | data_review/scripts/nc_file_analysis.py:234 | the filter of a concatenation is the concatenation of the filters, and one name is kept exactly when it lacks 'qc', so the kept names stay in their order |
| FileAnalysis.ReviewFiles | data_review/scripts/nc_file_analysis.py:84-101 | a file is analysed exactly when it mentions the deployment and its stem mentions `catalog_rms`, the designator, method and stream joined by dashes |
| FileAnalysis.ReviewFilesKeepsOrder | data_review/scripts/nc_file_analysis.py:96-101 | the choice over a concatenation is the concatenation of the choices, and one url is kept exactly when it passes both tests, so the analysed files stay in catalog order |
| FileAnalysis.GetDeploymentInformation | data_review/scripts/nc_file_analysis.py:43-48 | the result is the first deployment with the number, and None exactly when none has it |
| FileAnalysis.Midnight | data_review/scripts/nc_file_analysis.py:136 | the start is moved to the midnight at or before it |
| FileAnalysis.StopMidnight | data_review/scripts/nc_file_analysis.py:137-140 | the stop is kept at a midnight, and otherwise moved to the next midnight |
| FileAnalysis.DaysDeployed | data_review/scripts/nc_file_analysis.py:135-143 | the days deployed are None exactly when there is no stop, and otherwise the whole days from the start's midnight to the stop, rounded up |
| FileAnalysis.Diffs | data_review/scripts/nc_file_analysis.py:183 | the gaps are the differences of consecutive time stamps, one fewer than the stamps |
| FileAnalysis.RateSharesMembers | data_review/scripts/nc_file_analysis.py:187-190 | a gap is recorded exactly when it is one of the keys and makes up more than 10% of the gaps, with its share |
| FileAnalysis.CommonRates | data_review/scripts/nc_file_analysis.py:184-190 | the loop over the distinct gaps records exactly those shares |
| FileAnalysis.ChooseRate | data_review/scripts/nc_file_analysis.py:192-198 | a rate is chosen exactly when one gap is recorded and its shown share exceeds 75.00%; otherwise the recorded rates are reported |
| FileAnalysis.ChosenRateDominates | data_review/scripts/nc_file_analysis.py:184-198 | a chosen rate occurs among the gaps and makes up more than three quarters of them |
| FileAnalysis.DominantGapIsRate | data_review/scripts/nc_file_analysis.py:184-198 | a gap making up more than 90% of the gaps is chosen as the rate |
| FileAnalysis.UniqueTimestampTest | data_review/scripts/nc_file_analysis.py:200-207 | the unique test passes exactly when no time stamp repeats |
| FileAnalysis.FalseIndices | data_review/scripts/nc_file_analysis.py:224 | the listed indices are ascending and are exactly the false steps |
| FileAnalysis.AscendingTest | data_review/scripts/nc_file_analysis.py:209-225 | `not_tested` exactly when several files make up the deployment; otherwise a pass exactly when every step increases, and a fail lists exactly the non-increasing steps |
| FileAnalysis.AscendingTestAsWritten | data_review/scripts/nc_file_analysis.py:221-225 | as written, pass and fail are decided as intended but a fail lists no index |
| FileAnalysis.AscendingReportLosesIndex | data_review/scripts/nc_file_analysis.py:224 | for time stamps [2, 1] the intended report names step 0 and the script names none |
| FileAnalysis.DaysWithData | data_review/scripts/nc_file_analysis.py:228 | the days with data are the number of distinct days (time stamp divided by 86400, rounded down) among the time stamps, so at most their number and at least one when there is any |
| FileAnalysis.FillCount | data_review/scripts/nc_file_analysis.py:342-348 | NaNs, fill values and kept values add up to the length of the variable |
| FileAnalysis.SciVarCounts | data_review/scripts/nc_file_analysis.py:342-348 | `n_nan` counts the NaNs, `n_fv` the numeric fill values, and the kept values are exactly the numeric non-fill ones |
| FileAnalysis.ListDict.Insert | data_review/scripts/nc_file_analysis.py:51-56 | `insert_into_dict` starts a one-entry list for a new key and appends to an existing one |
| FileAnalysis.InsertedMeaning | data_review/scripts/nc_file_analysis.py:51-56 | after an insertion the key's list ends with the value, is one longer (or one entry for a new key), keeps its old entries in front, and no other key changes |

## Left out

- I/O and network. This covers opening NetCDF/OPeNDAP files, reading the
  review list and the review tables, catalog listing, directory creation,
  and CSV and JSON output. Their contents become parameters.
- Plotting. All figure, axis and legend code is left out, as is the colour
  array of the depth-profile script. The colour array is indexed with the
  same masks, so it would be one more aligned array.
- Helpers whose bodies are not part of this model are modelled only by
  their call-site meaning:
  - `cf.reject_extreme_values`: |z| <= 1e7 is kept.
  - `cf.reject_global_ranges`: the inclusive [min, max] is kept.
  - `gt.group_by_depth_range`: bins are consecutive boundary pairs, each
    half-open [lo, hi). This is a choice of the model, and the finding
    about the deepest samples holds for any choice of bin edges.
- Other helpers are not modelled at all: `cf.get_global_ranges` (given as
  optional bounds), `cf.variable_statistics`, `cf.time_exclude_portal`,
  `cf.timestamp_gap_test`, `cf.filter_collocated_instruments`,
  `cf.filter_other_streams`, `cf.deploy_location_check`, the
  `cd.*` helpers, and `pf.pressure_var` with the MOAS choice of the
  pressure variable.
- data_review/data_range.py defines only `main` (line 24) and imports
  neither `reject_erroneous_data` (called at 226) nor `reject_suspect_data`
  (called at 286). As written, the script therefore stops with a NameError
  at line 226 on the first variable that passes the skip checks, and
  nothing from line 278 on is reached. The model describes the script with
  these names repaired:
  - `reject_erroneous_data` is the fill, NaN, extreme and global-range chain
    of the plotting scripts (QualityFilter.RejectErroneous).
  - RemoveTime and RemoveTimes model `reject_suspect_data` by the
    commented-out loop at data_review/data_range.py:290-300, which shows what
    it does.
- The other broken names in data_review/data_range.py are modelled by the
  stage meaning they evidently stand for, not as NameErrors. These are
  `fill_value` at 226, `time_to_exclude` at 286, the `*_nomore` arrays at
  313-324, and the legend names at 370-381. (`inpercentile`, read at 303 and
  309, is not one of them: line 405 binds it as a module global when the
  file runs as a script.)
- data_review/data_range.py:303 and 307 read `z_ex`, `t_ex` and `y_ex`,
  which are bound only inside `if len(u_time_list) != 0` (285-286). A
  variable that no review row names therefore stops the script with
  UnboundLocalError when it is the first, and otherwise reuses the previous
  variable's arrays. The model does not follow this: an empty list of
  suspect times leaves the arrays as they are (QualityFilter.RemoveTimes).
- plotting/scripts/plot_deployment_depth_profiles.py:336 prints `len(z_ex)`
  when the notes export has no exclusion rows, but `z_ex` is bound only
  inside `if len(drn) != 0` (302-309). The first variable in that case stops
  the script with UnboundLocalError. The model does not follow this: it
  treats an empty list of exclusion rows as the identity
  (QualityFilter.ApplyExclusionRows).
- Floating point:
  - Values are exact reals or NaN.
  - mean is exact, and std is an abstract non-negative function of the
    values. Like pandas, std is NaN for fewer than two values.
  - `round(x, 4)` and `np.nanmean` are not modelled.
  - NaN pressures are not modelled, because Python's `min` and `max` over
    NaN depend on order.
  - The depth-group `notnull()` mask is taken on the values.
- ChooseRate: the `'{:.2%}'` text read back as a number is modelled as
  `round(share * 10000) > 7500` on exact reals, not on binary floats.
- Dates are whole seconds and a day is `t / 86400`. `strftime`,
  `date2num`, `timedelta` and time zones are not modelled, and the
  deployment stop 'None' is an absent stop time.
- FileAnalysis.GetDeploymentInformation: a None result that the script then
  indexes (a TypeError) is not followed further.
- Deployments.DeploymentNumber: `int()` also accepts surrounding blanks, a
  sign and underscores; the model reads digit strings only. None of these
  can occur in `deploymentNNNN` names.
- Deployments.DeploymentSelected: it compares with `!=`. The script
  compares with `is not`, which agrees with `!=` for the small integers
  deployment numbers are.
- Order of dictionaries and groupby:
  - `np.unique(list_time)` is sorted, and the model keeps first-seen order
    instead. Only emptiness of that list is used.
  - pandas `groupby` iterates gaps in sorted order, and CommonRates uses
    first-seen order. The set of recorded rates is the same.
- FileAnalysis.SciVarCounts: a variable of more than one dimension, for which
  the script records no counts, is not modelled.
- FileAnalysis.EliminateCommonVariables: `\w` is modelled on ASCII letters,
  digits and '_'. Python's `\w` also matches other Unicode letters.
- The nested `OrderedDict` JSON report of the file-analysis script is not
  modelled. The statistics that go into it are not modelled either: the
  pressure comparison, `n_stats`, and the mean, min, max and sd.
- The `describe()` statistics of the data-range table are not modelled:
  a row carries only its parameter, deployments column and group number.
- The seven per-group lists of the depth-profile script (`l_arr`, `y_avg`,
  `n_avg`, `n_min`, `n_max`, `n0_std`, `n1_std`) are one list of
  per-group records.
- ScienceData.SciVar.AbsorbAll: it models the file loop for one variable.
  A FileVar holds a dataset after the time slice of
  plotting/scripts/plot_deployment_3Dcolor_scatter.py:62, so with both
  bounds given only the in-range samples reach `sh['t']`, `sh['values']` and
  `sh['pressure']`; the slicing itself is not modelled, only the skip test
  (ScienceData.SkipForTimeRange).
  The order of the script's loops (files outside, variables inside) does
  not matter, because variables do not share arrays. The pressure
  fallback to a coordinate (all zero, NaN or fill) is not modelled.
- The exclusions from the review portal (`cf.time_exclude_portal`) are left
  out.
- Reading the notes export and selecting its rows are left out. The script
  keeps rows with `type == 'exclusion'` whose designator is the subsite, the
  subsite-node or the full designator
  (plotting/scripts/plot_deployment_depth_profiles.py:299-304). The selected
  rows' windows are parameters of QualityFilter.ExcludeRows and
  QualityFilter.ApplyExclusionRows, which model the loop over them.
- plotting/tools/plot_timeseries_deployment.py and
  plotting/mobile_asset_plots.py only open files and call other scripts;
  there is no logic in them to model.

## Findings

| source | as written | input that shows it | evidently intended | confidence | as-written member | corrected member |
|---|---|---|---|---|---|---|
| data_review/data_range.py:339-341 | the boundary range stops before `round(max(y) + size)`, so the last bin can end above `min` but below the deepest samples (the same code is at plotting/scripts/plot_deployment_depth_profiles.py:221-223) | one sample at 10.4 dbar, bin size 10: boundaries 0 and 10 | the bins cover every sample | not executed | DepthBinning.AsWrittenLosesDeepestSample | DepthBinning.CorrectedGroupsKeepAll |
| data_review/data_range.py:354 | `stat_df.append(stat_data)` sits outside the non-pressure branch, so a pressure variable appends the previous variable's rows again, or raises NameError when it comes first | a temperature variable with two depth groups, then a pressure variable (in the script with the unimported names of lines 226 and 286 repaired; as written it stops at line 226 first) | pressure variables add no rows | not executed | RangeReport.StaleRowsForPressure | RangeReport.BuildStatTable |
| plotting/scripts/plot_all_depth_profiles.py:203 | the NaN mask is built from the unfiltered values and indexes the fill-free arrays (also at plotting/scripts/plot_deployment_3Dcolor_scatter.py:139), an IndexError once any fill value was removed | values [1.0, fill] | the NaN mask built from the fill-free values | not executed | QualityFilter.UnfilteredNaNMaskFails | QualityFilter.RejectNaN |
| plotting/scripts/plot_deployment_3Dcolor_scatter.py:71 | the deployment number is `int(deployment.split('0')[-1])` (also at plotting/scripts/plot_deployment_depth_profiles.py:79) | `deployment0010` raises ValueError; `deployment0101` reads as 1 | `int(deployment[-4:])`, as everywhere else | not executed | Deployments.SelectedAsWrittenWrong | Deployments.SelectedExactly |
| data_review/scripts/nc_file_analysis.py:224 | the failing steps are collected with `v is False` over numpy booleans, which is never true | time stamps [2, 1] report `fail: {}` | the indices of the non-increasing steps | not executed | FileAnalysis.AscendingReportLosesIndex | FileAnalysis.AscendingTest |
