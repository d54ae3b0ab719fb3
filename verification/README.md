# Monasca API: verified models of its protocols and translations

This project models the parts of the Monasca API whose correctness is not visible in one function, and proves
what they are meant to guarantee. `dafny verify dfyconfig.toml` checks all of it.

- **Alarm expressions** (`AlarmLexer`, `AlarmSubExpression`, `AlarmExpression`, `AlarmPrinter`,
  `AlarmThreshold`, `SubAlarmDefinition`, `SubAlarmMeaning`):
  the grammar as a reader of characters, a grammar of texts independent of it, and the two printers. The reader
  accepts exactly the texts of the grammar; AND binds tighter than OR; printing and parsing undo each other; a stored
  definition triggers on the values its expression triggers on.
- **Series names and metric queries** (`UrlCodec`, `SeriesName`, `SeriesRegex`, `SeriesQuery`, `QueryExactness`,
  `QueryCompleteness`, `PythonSeriesName`): a metric identity printed with encoded tokens, both decoders, and the regular
  expression a filter is compiled to with its own reader and matcher.
- **Metric listings** (`LinkedPages`, `LinkTraversal`, `MetricListing`, `PythonListing`, `ListedSeries`): pages that are linked
  by their last names, the client that follows the links, both listings with every decoding an offset goes through on its
  way, and what they list of the stored series.
- **Named locks** (`NamedLocks`, `LockProgress`): threads of many processes, weak dictionaries that are collected,
  process-wide file locks, late callbacks and crashes, interleaved step by step: exclusion, and that no call is stuck.
- **Sub-expression diffs** (`SubExpressions`, `JavaDiff`, `PythonDiff`, `DefinitionRuns`): both diff algorithms, the
  tables they lead to, and all runs of updates and patches.
- **Worker supervisor** (`ForkRate`, `Supervisor`): fork, reap, respawn, signal and stop over two inverse maps, and
  the rate at which a wrapper forks.
- **Paging, grouping, cache and keys** (`Paging`, `AlarmGrouping`, `FileCache`, `MetricKey`).

`Text` and `Ordering` hold what several of them share.

Where a property fails, the code is kept as it is, an input that shows the failure is given, and the exact
condition under which the property holds is proved. The failures:

- A query, unless such bytes decide the order of its dimensions, is exact only for tokens without dot, star and space
  (`QueryExactness.QueryIsExact`), with percent encoding without dot (`QueryExactness.PercentQueryIsExact`): not for the metric name `a.b` (`QueryExactness.DotIsNotExact`) and not for the
  dimension `host.name` (`QueryExactness.HostNameIsNotExact`). For plain tokens it is exact only when no two of its dimensions
  compare equal (`QueryExactness.PlainQueryIsExact`, `QueryExactness.TieIsNotExact`). Dots only find too much
  (`QueryCompleteness.PercentFindsWanted`, `QueryCompleteness.FormFindsWanted`); a space in a form encoded query makes it miss
  the very series it names (`QueryCompleteness.SpaceMissesItself`).
- The series-name check lets names through that make the decoder raise (`SeriesName.CheckedNameMayCrash`,
  `SeriesName.CrashIff`); one such name stops a listing (`MetricListing.TraversalEnds`, `MetricListing.StoredTraversalEnds`).
- The offset of a listing is decoded by the repository although a query parameter arrives decoded already. The links of the
  Java listing give everything once just if every page-end name, decoded once more, separates the names in front from those
  behind (`MetricListing.LinksListAllIff`); otherwise pages repeat for ever (`MetricListing.LinksLoop`) or series are left out
  (`MetricListing.LinksSkip`).
- The Python listing unquotes the offset once more and passes over the names below it only. Whether the links give everything
  once, or repeat just the last series of each page, depends on the unquoted names (`PythonListing.LinksListAllIff`); they too
  may repeat for ever or leave out series (`PythonListing.LinksLoop`, `PythonListing.LinksSkip`).
- The Python decoder leaves the plus signs of form encoded dimensions (`PythonSeriesName.DecodesForm`,
  `PythonSeriesName.SpaceIsLost`).
- A callback of the weak dictionary that runs late deletes the semaphore made since, and two threads get in
  (`NamedLocks.InternalExclusion`, `NamedLocks.LateCallbackBreaks`).
- External locks with one lock file and two names do not exclude each other inside a process, and neither do any
  external locks once an attempt to lock has failed with an unexpected error (`NamedLocks.ExternalExclusion`,
  `NamedLocks.CollidingNames`, `NamedLocks.SharedPathBreaks`, `NamedLocks.FailedAttemptBreaks`).
- A stored sub-expression that shares its metric with two missing ones makes the Java diff throw; the Python diff
  loses one of them (`JavaDiff.SubExpressionsFor`, `JavaDiff.SecondRemoveThrows`, `PythonDiff.TableIsExpression`,
  `PythonDiff.OneOfTwoIsLost`).
- An accepted Java update may leave rows that differ from the expression (`DefinitionRuns.FaithfulIff`), and store a value
  twice just if it writes a stale row to the value of a wanted one (`DefinitionRuns.DriftIff`, `DefinitionRuns.DriftBlocksUpdates`);
  then, and only then, every later call fails (`DefinitionRuns.AcceptsIff`, `DefinitionRuns.DriftIsFinal`).
- The comparison of definitions raises for thresholds such as `1.2.3`, which the grammar accepts
  (`SubAlarmDefinition.ThresholdMayBeNoNumber`), and the printed expression of a row whose threshold prints with an
  exponent or a sign does not parse (`SubAlarmDefinition.RowExpressionIff`, `SubAlarmDefinition.RowExpressionFails`,
  `SubAlarmDefinition.LargeThresholdIsLost`).
- A wrapper is full when the launcher sleeps just if it was full when the round began or had a child reaped in the round
  (`Supervisor.ProcessLauncher.RespawnChildren`). One whose only child exits while the signal to reload is caught stays empty
  (`Supervisor.ProcessLauncher.Wait`, `Supervisor.ReloadLosesChild`).
- A signal that is to end the launcher is lost just if it comes while wait passes on a signal to reload that was caught
  before wait, with children there (`Supervisor.ProcessLauncher.Wait`, `Supervisor.ProcessLauncher.LaunchedIsReady`,
  `Supervisor.TerminationIsLost`).

## Model

| member | source | states |
|---|---|---|
| `AlarmSubExpression.SubReads` | monasca/expression_parser/alarm_expr_parser.py:176-244 | every text of a sub-expression, whatever the case of its keywords and the optional parts, is read as exactly its value, and what follows is left |
| `AlarmSubExpression.SubSound` | monasca/expression_parser/alarm_expr_parser.py:176-244 | the converse: whatever the reader takes is a text of a sub-expression with the value it returns |
| `AlarmExpression.ParsesExactly` | monasca/expression_parser/alarm_expr_parser.py:246-263 | parsing a text gives a tree just if the text is spelled by the grammar with that tree, so the parser is sound and complete |
| `AlarmExpression.OrLeaves` | monasca/expression_parser/alarm_expr_parser.py:155-163 | the operands of the tree, flattened, are the sub-expressions of the text in textual order, each once |
| `AlarmExpression.SubExprListIsTextualOrder` | monasca/expression_parser/alarm_expr_parser.py:256-263 | the list of a whole expression, blanks removed, is that of the text |
| `AlarmExpression.OrHolds` | monasca/expression_parser/alarm_expr_parser.py:246-249 | under every valuation the n-ary tree means what the infix text means with AND above OR and parentheses above both |
| `AlarmExpression.AndChainIsOneNode` | monasca/expression_parser/alarm_expr_parser.py:155-168 | operands joined by AND become one node with as many operands in textual order, each a leaf or the tree between its parentheses |
| `AlarmExpression.OrChainIsOneNode` | monasca/expression_parser/alarm_expr_parser.py:155-168 | the same for OR, each operand the tree of its AND chain |
| `AlarmPrinter.LayoutParses` | monasca/expression_parser/alarm_expr_parser.py:42-61 | a printed sub-expression, in any case of its keywords, parses to itself |
| `AlarmPrinter.FormattedRoundTrip` | monasca/expression_parser/alarm_expr_parser.py:42-61 | parsing undoes fmtd_sub_expr_str for every valid sub-expression and each optional part |
| `AlarmPrinter.ParsedIsValid` | monasca/expression_parser/alarm_expr_parser.py:176-244 | the valid sub-expressions are exactly those some text parses to |
| `AlarmPrinter.ParsedSubsRoundTrip` | monasca/v2/reference/alarming.py:146-151 | each sub-expression of a parsed expression prints to a text that parses to it alone |
| `SubAlarmDefinition.InitDimensions` | monasca/common/repositories/model/sub_alarm_definition.py:66-75 | the loop over the dimension text: the dictionary of its pairs, or the error of a part that is no pair |
| `SubAlarmDefinition.AnyRowOrderGivesTheSameDimensions` | monasca/common/repositories/model/sub_alarm_definition.py:66-75 | the dictionary read back from the database does not depend on the order of the concatenated rows |
| `SubAlarmDefinition.EqualHashEqually` | monasca/common/repositories/model/sub_alarm_definition.py:101-134 | equal definitions hash equally whatever the iteration order of their dictionaries |
| `SubAlarmDefinition.ParsedIsStorable` | monasca/common/repositories/model/sub_alarm_definition.py:52-64 | every parsed sub-expression gives a definition with a known function and operator, legal dimensions and a period; what it means is stated by SubAlarmMeaning |
| `SubAlarmDefinition.ExpressionRoundTrip` | monasca/common/repositories/model/sub_alarm_definition.py:77-99 | parsing the printed expression and rebuilding gives an equal definition; the comparison raises exactly when the threshold is no number |
| `SubAlarmDefinition.RowExpressionIff` | monasca/common/repositories/model/sub_alarm_definition.py:37-50 | the expression of a definition built from a database row parses to the sub-expression of the columns of the row just if the text of the threshold has only digits and dots |
| `SubAlarmDefinition.RowExpressionFails` | monasca/common/repositories/model/sub_alarm_definition.py:49-50 | with any other text of a float, one with a sign, an exponent or no digits, the expression does not parse at all |
| `SubAlarmDefinition.LargeThresholdIsLost` | monasca/common/repositories/model/sub_alarm_definition.py:49-50 | a threshold of a million millions, which prints with an exponent and does not parse |
| `SubAlarmDefinition.ThresholdMayBeNoNumber` | monasca/common/repositories/model/sub_alarm_definition.py:133-134 | a threshold of the grammar that is no number |
| `SubAlarmMeaning.StoredOperatorMeans` | monasca/expression_parser/alarm_expr_parser.py:132-142 | the operator of the stored definition triggers on exactly the values the operator of the expression triggers on, for each of its eight spellings |
| `SubAlarmMeaning.SameDefinitionIff` | monasca/expression_parser/alarm_expr_parser.py:116-142 | two sub-expressions give one definition just if their parts agree, operators up to their spelling; an absent period is 60 and absent periods are 1 |
| `SubAlarmMeaning.StoredMeansTheSame` | monasca/common/repositories/model/sub_alarm_definition.py:52-99 | the expression printed from a definition parses to the sub-expression it was built from, with the same comparison and the defaults written out |
| `SubAlarmMeaning.EqualIff` | monasca/common/repositories/model/sub_alarm_definition.py:117-134 | definitions built from expressions are equal just if all agrees, dimensions as dictionaries and thresholds as numbers |
| `SubAlarmMeaning.PointZeroIsTheSame` | monasca/common/repositories/model/sub_alarm_definition.py:133-134 | a whole number and the same with a point and zeros are one threshold |
| `SubAlarmMeaning.ThresholdsDiffer` | monasca/common/repositories/model/sub_alarm_definition.py:133-134 | whole numbers with as many digits are one threshold only if written the same |
| `UrlCodec.FormRoundTrip` | src/main/java/monasca/api/infrastructure/persistence/influxdb/Utils.java:116-123 | decoding undoes the form encoding of every byte string |
| `UrlCodec.FormIsTokenEncoding` | src/main/java/monasca/api/infrastructure/persistence/influxdb/Utils.java:116-118 | encoded tokens differ and contain no separator and no line terminator |
| `UrlCodec.PercentIsTokenEncoding` | monasca/common/repositories/influxdb/metrics_repository.py:106-126 | the same for the percent encoding of the Python code |
| `UrlCodec.PercentDecodes` | src/main/java/monasca/api/infrastructure/persistence/influxdb/Utils.java:121-123 | the Java decoding also undoes the percent encoding of the Python code |
| `UrlCodec.DecodesIff` | src/main/java/monasca/api/infrastructure/persistence/influxdb/Utils.java:121-123 | decoding succeeds just if every percent sign is followed by what reads as a byte |
| `UrlCodec.EitherCaseDecodes` | src/main/java/monasca/api/infrastructure/persistence/influxdb/Utils.java:121-123 | escapes are read alike with upper and lower case digits |
| `SeriesName.SerieNameDecoder` | src/main/java/monasca/api/infrastructure/persistence/influxdb/Utils.java:160-198 | the constructor, check and loops, computes the decoding that is read off the pieces between the separators |
| `SeriesName.ReadDimensions` | src/main/java/monasca/api/infrastructure/persistence/influxdb/Utils.java:181-197 | the loop that fills the dimension map, with its index errors |
| `SeriesName.MetricNameHasSeparators` | src/main/java/monasca/api/infrastructure/persistence/influxdb/Utils.java:32 | a name that passes the check has both separators the decoder looks for |
| `SeriesName.CheckIsPattern` | src/main/java/monasca/api/infrastructure/persistence/influxdb/Utils.java:32 | the check passes exactly the texts that are put together as the regular expression says |
| `SeriesName.DecoderInverts` | src/main/java/monasca/api/infrastructure/persistence/influxdb/Utils.java:160-198 | decoding a printed name gives back its four parts just if it has a tenant and either all its dimensions have values or it has none, a region and a name |
| `SeriesName.CheckedNameMayCrash` | src/main/java/monasca/api/infrastructure/persistence/influxdb/Utils.java:162-194 | a dimension without a value passes the check and makes the decoder raise |
| `SeriesName.CrashIff` | src/main/java/monasca/api/infrastructure/persistence/influxdb/Utils.java:160-198 | the decoder raises just for names that pass the check and have a malformed escape or a dimension with nothing but equals signs behind its first one |
| `SeriesRegex.MatchLiterals` | src/main/java/monasca/api/infrastructure/persistence/influxdb/Utils.java:83-113 | literal pieces match exactly the texts they are a prefix of |
| `SeriesQuery.BuildSortedDimSet` | src/main/java/monasca/api/infrastructure/persistence/influxdb/Utils.java:125-133 | the loop over the map keys gives an ascending list of entries, one of each class that compares equal |
| `SeriesQuery.CompareLaws` | src/main/java/monasca/api/infrastructure/persistence/influxdb/Utils.java:145-149 | the comparison of dimensions is antisymmetric and transitive, the names decide first, and two compare equal just if names and values do |
| `SeriesQuery.BuildSerieNameRegex` | src/main/java/monasca/api/infrastructure/persistence/influxdb/Utils.java:83-114 | the text the appends and the loop build, for any token encoding and key order |
| `SeriesQuery.QueryRead` | monasca/common/repositories/influxdb/metrics_repository.py:101-130 | the built text reads as the regular expression of its pieces when the tokens are literal |
| `SeriesQuery.MatchIsSubsequence` | src/main/java/monasca/api/infrastructure/persistence/influxdb/Utils.java:103-111 | the dimension part matches just if the query's segments are a subsequence of those of the name |
| `SeriesQuery.SubsequenceGivesSubset` | src/main/java/monasca/api/infrastructure/persistence/influxdb/Utils.java:103-111 | a subsequence of segments is a subset of dimensions |
| `SeriesQuery.SubsetGivesSubsequence` | src/main/java/monasca/api/infrastructure/persistence/influxdb/Utils.java:103-111 | for lists ascending in one order a subset is a subsequence |
| `QueryExactness.PlainQueryFinds` | src/main/java/monasca/api/infrastructure/persistence/influxdb/Utils.java:83-114 | a query of plain tokens finds a series just if tenant, region and name agree and the series has every dimension of the sorted set |
| `QueryExactness.PlainQueryIsExact` | src/main/java/monasca/api/infrastructure/persistence/influxdb/Utils.java:83-150 | with either encoding, a query of plain tokens is exact just if no two of its dimensions compare equal |
| `QueryExactness.FormPlain` | src/main/java/monasca/api/infrastructure/persistence/influxdb/Utils.java:116-118 | an encoded token means itself in the regular expression just if the token has no dot, star or space |
| `QueryExactness.PercentPlain` | monasca/common/repositories/influxdb/metrics_repository.py:106-126 | a percent encoded token means itself just if the token has no dot |
| `QueryExactness.QueryFindsSanitised` | src/main/java/monasca/api/infrastructure/persistence/influxdb/Utils.java:83-114 | a query that is a regular expression finds the series with a letter for each dot and without stars and spaces |
| `QueryExactness.ExactIffPlain` | src/main/java/monasca/api/infrastructure/persistence/influxdb/Utils.java:83-150 | when no two dimensions of the query compare equal, and their order does not depend on the special bytes in them, the query is exact just if all its tokens are plain |
| `QueryExactness.QueryIsExact` | src/main/java/monasca/api/infrastructure/persistence/influxdb/Utils.java:83-150 | with URLEncoder just if nothing in it has a dot, a star or a space |
| `QueryExactness.PercentQueryIsExact` | monasca/common/repositories/influxdb/metrics_repository.py:101-130 | with percent encoding just if nothing in it has a dot |
| `QueryExactness.DistinctNamesStayAscending` | src/main/java/monasca/api/infrastructure/persistence/influxdb/Utils.java:125-149 | that condition on the order holds for plain dimension names that are distinct up to case |
| `QueryExactness.DotIsNotExact` | src/main/java/monasca/api/infrastructure/persistence/influxdb/Utils.java:88-94 | a metric name with a dot, in both encodings |
| `QueryExactness.HostNameIsNotExact` | src/main/java/monasca/api/infrastructure/persistence/influxdb/Utils.java:103-111 | the dimension host.name, in both encodings |
| `QueryExactness.TieIsNotExact` | src/main/java/monasca/api/infrastructure/persistence/influxdb/Utils.java:125-149 | the dimensions A and a with one value |
| `QueryCompleteness.FindsWanted` | src/main/java/monasca/api/infrastructure/persistence/influxdb/Utils.java:83-114 | a query whose tokens hold no star and no plus sign when encoded finds every series it wants |
| `QueryCompleteness.PercentFindsWanted` | monasca/common/repositories/influxdb/metrics_repository.py:101-130 | with percent encoding every query does, whatever its bytes and ties |
| `QueryCompleteness.FormFindsWanted` | src/main/java/monasca/api/infrastructure/persistence/influxdb/Utils.java:83-114 | with URLEncoder every query without stars and spaces does |
| `QueryCompleteness.SpaceMissesItself` | src/main/java/monasca/api/infrastructure/persistence/influxdb/Utils.java:88-94 | the query for the metric name "a b" does not find the series of that name |
| `LinkedPages.RightIff` | src/main/java/monasca/api/resource/Links.java:145-185 | pages linked by their last names give all names in order, each page repeating o of the one before (none or one), just if every link at a page end leads to the names due and past every name that fails |
| `LinkedPages.EndlessIff` | src/main/java/monasca/api/resource/Links.java:157-161 | the pages go on for ever just if, within one link more than there are names, one starts where another did |
| `LinkedPages.EndsIff` | src/main/java/monasca/api/resource/Links.java:157-161 | they come to an end just if they do within as many links as there are names |
| `LinkTraversal.GivesElementsIff` | src/main/java/monasca/api/resource/Links.java:145-185 | the same for a client that takes the id of the last element and a service that reads it: the condition is on the names a link passes over |
| `LinkTraversal.ExactEndsIff` | src/main/java/monasca/api/resource/Links.java:145-185 | when every link passes over exactly what its page gave, the traversal ends just if no name fails |
| `MetricListing.OffsetOfId` | src/main/java/monasca/api/infrastructure/persistence/influxdb/MetricDefinitionInfluxDbRepositoryImpl.java:70-74 | decoding an id gives back the series name, through UTF-8 and URL encoding |
| `MetricListing.BuildMetricDefList` | src/main/java/monasca/api/infrastructure/persistence/influxdb/MetricDefinitionInfluxDbRepositoryImpl.java:67-114 | the nested loops with skips and early return compute the page of the offset; what it holds is stated by ListedSeries |
| `ListedSeries.ListsStoredSeries` | src/main/java/monasca/api/infrastructure/persistence/influxdb/MetricDefinitionInfluxDbRepositoryImpl.java:67-114 | without an offset a call lists all stored series that pass the check, with one the first fifty above the decoded offset, each in its place with its own name, dimensions and an id that decodes to its series name; it raises just for a dimension without a value or an offset that cannot be decoded |
| `MetricListing.IdsDiffer` | src/main/java/monasca/api/infrastructure/persistence/influxdb/MetricDefinitionInfluxDbRepositoryImpl.java:102-103 | distinct series have distinct ids |
| `MetricListing.TraversalListsAll` | src/main/java/monasca/api/infrastructure/persistence/influxdb/MetricDefinitionInfluxDbRepositoryImpl.java:67-114 | when the repository is handed the ids as they are, a traversal of an ascending list gives every decodable series once and in order |
| `MetricListing.TraversalEnds` | src/main/java/monasca/api/infrastructure/persistence/influxdb/MetricDefinitionInfluxDbRepositoryImpl.java:89-96 | and comes to its end just if no name makes the decoder raise |
| `MetricListing.StoredTraversalEnds` | src/main/java/monasca/api/infrastructure/persistence/influxdb/MetricDefinitionInfluxDbRepositoryImpl.java:89-96 | for names as they are stored: just if every series that passes the check has only dimensions with values |
| `MetricListing.CheckedTraversalEnds` | src/main/java/monasca/api/infrastructure/persistence/influxdb/MetricDefinitionInfluxDbRepositoryImpl.java:89-96 | for any names: just if those that pass the check are well formed |
| `MetricListing.LinksListAllIff` | src/main/java/monasca/api/resource/MetricResource.java:98-112 | following the next links, whose offset the framework decodes first, gives every decodable series once and in order just if each page-end name decoded once more separates the decodable names in front from those behind, and every name that raises is led past |
| `MetricListing.LinksEndIff` | src/main/java/monasca/api/resource/MetricResource.java:98-112 | where each link leads, exactly when following the links ends, and exactly when it goes on for ever |
| `MetricListing.PlainNamesAreListed` | src/main/java/monasca/api/resource/MetricResource.java:98-112 | where no decodable name has a percent or plus sign the links list everything unless a name raises |
| `MetricListing.LinksLoop` | src/main/java/monasca/api/infrastructure/persistence/influxdb/MetricDefinitionInfluxDbRepositoryImpl.java:70-87 | fifty series with a space in their names: the links repeat the first page for ever |
| `MetricListing.LinksSkip` | src/main/java/monasca/api/infrastructure/persistence/influxdb/MetricDefinitionInfluxDbRepositoryImpl.java:70-87 | fifty-one series with a slash in their names: the one traversal there is leaves out the last |
| `PythonSeriesName.DecodeInfluxdbSerieName` | monasca/common/repositories/influxdb/metrics_repository.py:201-252 | the match, the substitution and the loop over the dimensions found compute the decoding defined by runs of token characters |
| `PythonSeriesName.PrintedDecodes` | monasca/common/repositories/influxdb/metrics_repository.py:217-248 | what is read from a printed name with no empty token, for any token encoding |
| `PythonSeriesName.EmptyIsLost` | monasca/common/repositories/influxdb/metrics_repository.py:44-51 | a name with an empty part or an empty dimension name or value is not read back |
| `PythonSeriesName.DecodesPercent` | monasca/common/repositories/influxdb/metrics_repository.py:205-210 | a percent encoded name is read back just if none of its tokens is empty |
| `PythonSeriesName.DecodesForm` | monasca/common/repositories/influxdb/metrics_repository.py:222-246 | a form encoded name is read back just if in addition its dimensions hold no space |
| `PythonSeriesName.SpaceIsLost` | monasca/common/repositories/influxdb/metrics_repository.py:222-246 | a form encoded dimension with a space in its value, which is not read back |
| `PythonListing.QuoteDecodes` | monasca/common/repositories/influxdb/metrics_repository.py:226-227 | the framework decodes a quoted series name to the name |
| `PythonListing.UnquoteKeepsIff` | monasca/common/repositories/influxdb/metrics_repository.py:187 | unquoting a name leaves it as it is just if no escape is in it |
| `PythonListing.UnquotesToLatin1` | monasca/common/repositories/influxdb/metrics_repository.py:188 | unquoting a percent encoded token gives one character for each byte |
| `PythonListing.DecodeSerieNameList` | monasca/common/repositories/influxdb/metrics_repository.py:182-199 | the loop with skips and break, comparing each name with the unquoted offset, computes the page or the exception |
| `ListedSeries.ListsStoredMetrics` | monasca/common/repositories/influxdb/metrics_repository.py:158-254 | the same of the Python listing for stored series without empty parts, from the first that is not below the unquoted offset |
| `PythonListing.LinksListAllIff` | monasca/common/repositories/influxdb/metrics_repository.py:186-197 | following the links gives every metric in order, once or with the last of each page repeated, just if at each page end the unquoted name separates the decodable names in front of those due from the rest, and names that raise are led past |
| `PythonListing.BoundaryFate` | monasca/common/repositories/influxdb/metrics_repository.py:187 | the page a name's link leads to starts at or in front of the name just if unquoting does not make the name greater |
| `PythonListing.PlainNamesRepeat` | monasca/common/repositories/influxdb/metrics_repository.py:186-197 | where unquoting changes no decodable name each later page repeats just the last metric of the page before, and the traversal ends unless a name raises |
| `PythonListing.LinksEndIff` | monasca/v2/reference/helpers.py:276-312 | where each link leads, exactly when following the links ends, and exactly when it goes on for ever |
| `PythonListing.LinksLoop` | monasca/common/repositories/influxdb/metrics_repository.py:186-197 | fifty series with a space in their names: the links repeat the first page for ever |
| `PythonListing.LinksSkip` | monasca/common/repositories/influxdb/metrics_repository.py:186-197 | fifty-one series with a slash in their names: no page repeats one, and the last is on no page |
| `NamedLocks.StepKeepsOk` | monasca/openstack/common/lockutils.py:198-234 | safety: every step of every thread, collection and crash keeps that all who reached the semaphore of a name in a process share the one in the dictionary, and that a holder is unique; that each step leads on is stated by LockProgress |
| `NamedLocks.CollectKeepsOk` | monasca/openstack/common/lockutils.py:156-157 | an entry nobody refers to that is removed as it dies, or dies with its callback still to come, loses no semaphore in use |
| `NamedLocks.InternalExclusion` | monasca/openstack/common/lockutils.py:210-234 | over every run at most one thread of a process is inside a name, just if no callback of the weak dictionary runs late or no request gets to its body |
| `NamedLocks.LateCallbackBreaks` | monasca/openstack/common/lockutils.py:156-157 | a late callback deletes the semaphore made since, and a further thread makes one more |
| `NamedLocks.OnlyHolderGivesUp` | monasca/openstack/common/lockutils.py:111-121 | only the thread inside the lock unlocks or closes the lock file of its process |
| `NamedLocks.StepKeepsFilesOk` | monasca/openstack/common/lockutils.py:141-146 | every step keeps that a thread inside an external lock is in the process that owns the file |
| `NamedLocks.ExternalExclusion` | monasca/openstack/common/lockutils.py:77-118 | over every run at most one thread of any process is inside the external lock of a path, just if requests for a path are for one name and, where attempts may fail or callbacks run late, there are no external locks |
| `NamedLocks.SharedPathBreaks` | monasca/openstack/common/lockutils.py:141-146 | two names with one lock file let two threads of a process in |
| `NamedLocks.FailedAttemptBreaks` | monasca/openstack/common/lockutils.py:88-105 | a failed attempt leaves the file open, and closing it later drops the lock of another thread |
| `NamedLocks.GivenDirectoryCounts` | monasca/openstack/common/lockutils.py:168-171 | a directory passed in the call counts, and the configured one only without it |
| `NamedLocks.FileLiesInDirectory` | monasca/openstack/common/lockutils.py:160-173 | the lock file lies in that directory, under the flattened name, behind the prefix and one dash |
| `LockProgress.Progress` | monasca/openstack/common/lockutils.py:198-234 | from every state of every run without mishaps each call that gets to a body and has not been there has a continuation that takes it there, without a crash or a new call |
| `LockProgress.BodyBeforeEnd` | monasca/openstack/common/lockutils.py:226-233 | without failing attempts no such call comes to its end without having been in its body |
| `LockProgress.EndsByRelease` | monasca/openstack/common/lockutils.py:226-233 | a call ends only by releasing the semaphore, or with its process |
| `LockProgress.StepKeepsSound` | monasca/openstack/common/lockutils.py:198-234 | guard, semaphores and files are held only by threads that are where they hold them |
| `NamedLocks.PathsCollide` | monasca/openstack/common/lockutils.py:160-173 | with one prefix and directory two names share a lock file just if they agree after '/' becomes '_' |
| `NamedLocks.NameExclusion` | monasca/openstack/common/lockutils.py:160-234 | with one prefix and directory, exclusion over every run just if no two names do |
| `NamedLocks.CollidingNames` | monasca/openstack/common/lockutils.py:160-173 | names, and names with prefixes, that share a lock file |
| `JavaDiff.RemoveMatches` | src/main/java/monasca/api/app/AlarmDefinitionService.java:307-315 | the inner iterator loop: it fails just if two missing values have the metric of the row, and otherwise removes the match from both sets |
| `JavaDiff.FindChanged` | src/main/java/monasca/api/app/AlarmDefinitionService.java:304-316 | the nested iterator loops fail just if some stale row shares its metric with two missing values, and otherwise match what can be matched |
| `JavaDiff.SubExpressionsFor` | src/main/java/monasca/api/app/AlarmDefinitionService.java:289-337 | exactly when each exception is thrown, and otherwise a partition of the ids and of the new expression, changed pairs sharing their metric and nothing left unmatched |
| `JavaDiff.SecondRemoveThrows` | src/main/java/monasca/api/app/AlarmDefinitionService.java:307-315 | one stored row and two new thresholds for its metric: the second removal throws |
| `JavaDiff.WrittenTableIsExpression` | src/main/java/monasca/api/infrastructure/persistence/mysql/AlarmDefinitionMySqlRepositoryImpl.java:242-257 | the table written is the new expression just if no changed row differs in function, period or periods |
| `PythonDiff.OldSet` | monasca/common/repositories/mysql/alarm_definitions_repository.py:341-349 | the set of stored definitions keeps one id of each value |
| `PythonDiff.FindChanged` | monasca/common/repositories/mysql/alarm_definitions_repository.py:358-392 | what the nested loops remember: matched values on both sides, and the last match of each |
| `PythonDiff.SubAlarmDifference` | monasca/common/repositories/mysql/alarm_definitions_repository.py:341-417 | the four dictionaries of the diff; which rows go where, by the columns, is stated by the three rows below |
| `PythonDiff.StaleIsChangedIff` | monasca/common/repositories/mysql/alarm_definitions_repository.py:363-393 | the id of a stale value is changed just if a missing value agrees with it in all but operator and threshold, and is deleted just if none has its metric, function, period and periods |
| `PythonDiff.KeepsItsIdIff` | monasca/common/repositories/mysql/alarm_definitions_repository.py:363-417 | a row keeps its id just if its value is wanted or it can become a missing value by writing operator and threshold, or its value is stored twice |
| `PythonDiff.IsCreatedIff` | monasca/common/repositories/mysql/alarm_definitions_repository.py:363-417 | a missing value gets a new row just if no stale row can become it |
| `PythonDiff.TurnedRoundKeepsItsId` | monasca/common/repositories/mysql/alarm_definitions_repository.py:363-375 | a run: max(m) < 5 replaces max(m) > 5, the row keeps its id and nothing is deleted or created |
| `PythonDiff.IdsArePartitioned` | monasca/common/repositories/mysql/alarm_definitions_repository.py:394-410 | old, changed and unchanged ids partition the stored ids, and a changed pair shares its key fields |
| `PythonDiff.TableIsExpression` | monasca/common/repositories/mysql/alarm_definitions_repository.py:461-523 | the values of the table after the update are the new expression just if no stale value is stored twice and none matches two missing values |
| `PythonDiff.OneOfTwoIsLost` | monasca/common/repositories/mysql/alarm_definitions_repository.py:358-392 | the same input: the table does not become the new expression |
| `PythonDiff.TableHoldsEachOnce` | monasca/common/repositories/mysql/alarm_definitions_repository.py:461-523 | each of them in exactly one row just if the rows were distinct and the match is one to one |
| `PythonDiff.SurvivorsKeepTheirId` | monasca/common/repositories/mysql/alarm_definitions_repository.py:461-480 | rows that are not deleted keep their id and key fields, wanted ones their value |
| `DefinitionRuns.AlarmDefinition.ValidateChangesAllowed` | src/main/java/monasca/api/app/AlarmDefinitionService.java:201-224 | which of the three answers the check gives |
| `DefinitionRuns.NothingDeletedOrCreated` | src/main/java/monasca/api/app/AlarmDefinitionService.java:214-222 | the check passes just if stale rows and missing values have the same metrics, each once |
| `DefinitionRuns.AlarmDefinition.Update` | src/main/java/monasca/api/app/AlarmDefinitionService.java:180-195 | the outcome as a function of the stored definition and the request, the new state when accepted, and no change otherwise |
| `DefinitionRuns.AlarmDefinition.Patch` | src/main/java/monasca/api/app/AlarmDefinitionService.java:233-258 | the same with stored values for the fields that are not given |
| `DefinitionRuns.AcceptedCorresponds` | src/main/java/monasca/api/app/AlarmDefinitionService.java:180-224 | after an accepted call rows and expression correspond one to one by metric, and ids and metrics are as before |
| `DefinitionRuns.RunKeeps` | src/main/java/monasca/api/app/AlarmDefinitionService.java:180-258 | over every run of calls ids, metrics and match_by stay and the correspondence holds |
| `DefinitionRuns.FaithfulIff` | src/main/java/monasca/api/infrastructure/persistence/mysql/AlarmDefinitionMySqlRepositoryImpl.java:247-254 | an accepted call leaves rows equal to the expression just if it changes only operators and thresholds |
| `DefinitionRuns.DriftIff` | src/main/java/monasca/api/infrastructure/persistence/mysql/AlarmDefinitionMySqlRepositoryImpl.java:247-254 | an accepted call stores a value twice just if a stale row, with the operator and threshold of its new value, equals a wanted row |
| `DefinitionRuns.AcceptsIff` | src/main/java/monasca/api/app/AlarmDefinitionService.java:289-294 | some call is accepted just if no value is stored twice |
| `DefinitionRuns.DriftIsFinal` | src/main/java/monasca/api/app/AlarmDefinitionService.java:180-258 | over every run from a state with a value stored twice nothing changes any more |
| `DefinitionRuns.DriftBlocksUpdates` | src/main/java/monasca/api/app/AlarmDefinitionService.java:291-292 | an accepted update that does this |
| `ForkRate.RateBound` | monasca/openstack/common/service.py:303-315 | the rate bound for any two forks of a wrapper, less w for each interrupted sleep between them |
| `ForkRate.PacedStep` | monasca/openstack/common/service.py:304-315 | forktimes stays the window of the last workers + 1 forks |
| `Supervisor.ProcessLauncher.HoldBack` | monasca/openstack/common/service.py:304-315 | the fork is held back as the window demands and recorded |
| `Supervisor.ProcessLauncher.StartChild` | monasca/openstack/common/service.py:303-334 | the new child is in both maps and nothing else changes |
| `Supervisor.ProcessLauncher.LaunchService` | monasca/openstack/common/service.py:336-341 | a launch that ends while running leaves exactly workers children |
| `Supervisor.ProcessLauncher.WaitChild` | monasca/openstack/common/service.py:343-369 | a reaped child leaves both maps, an unknown pid changes nothing |
| `Supervisor.ProcessLauncher.RespawnChildren` | monasca/openstack/common/service.py:371-381 | at every point of a run the maps are inverse, the child sets disjoint and within workers; whenever it sleeps a wrapper is full just if it was when the round began or had a child reaped in it, and the others have the children they had |
| `Supervisor.ProcessLauncher.Stop` | monasca/openstack/common/service.py:412-426 | a stop sends every child a signal and waits for all of them; it completes just when no child is left, in neither map, and does when they all exit |
| `Supervisor.ProcessLauncher.Wait` | monasca/openstack/common/service.py:383-410 | when wait returns, after a signal or a stop elsewhere, there are no children; when the only child exits while the signal to reload is caught, no wrapper has a child again. Once a signal other than SIGHUP, or for no daemon any signal, is met, no start of a child begins and the launcher is not asleep and running again; it returns when its children can be sent a signal and exit. It loses such a signal where it passes on a reload that was caught before |
| `Supervisor.ReloadLosesChild` | monasca/openstack/common/service.py:371-410 | a run in which that happens: the launcher sleeps, running, with an empty wrapper of one worker |
| `Supervisor.ProcessLauncher.LaunchedIsReady` | monasca/openstack/common/service.py:383-405 | a launched launcher is in no danger of losing a signal just if it has no children or has not caught the signal to reload as a daemon |
| `Supervisor.TerminatedDaemonEnds` | monasca/openstack/common/service.py:400-426 | a run: a daemon with one child is sent SIGTERM, signals the child, waits for it and returns |
| `Supervisor.TerminationIsLost` | monasca/openstack/common/service.py:390-405 | a run: SIGHUP is caught before wait, SIGTERM while wait passes it on, and the launcher goes on |
| `Supervisor.ProcessLauncher.ForksAreFew` | monasca/openstack/common/service.py:303-315 | the rate bound and the window hold of every wrapper at every point of a run |
| `Paging.NotificationMethodRepository.Find` | src/main/java/monasca/api/infrastructure/persistence/mysql/NotificationMethodMySqlRepositoryImpl.java:97-114 | the page behind an offset: in order, owned by the tenant, complete up to its end |
| `Paging.PageIsUnique` | src/main/java/monasca/api/infrastructure/persistence/mysql/NotificationMethodMySqlRepositoryImpl.java:103-107 | table and offset determine the page |
| `Paging.NotificationMethodRepository.Create` | src/main/java/monasca/api/infrastructure/persistence/mysql/NotificationMethodMySqlRepositoryImpl.java:49-64 | refused just if the same method exists, otherwise one row more |
| `Paging.NotificationMethodRepository.DeleteById` | src/main/java/monasca/api/infrastructure/persistence/mysql/NotificationMethodMySqlRepositoryImpl.java:66-73 | refused unless the tenant has the id, otherwise one row less |
| `Paging.NoIdTwice` | src/main/java/monasca/api/resource/Links.java:145-185 | no id is returned twice whatever is written between the fetches |
| `Paging.PresentIsReturned` | src/main/java/monasca/api/resource/Links.java:145-185 | a method that is there at every fetch is returned |
| `Paging.ReturnedWasPresent` | src/main/java/monasca/api/resource/Links.java:145-185 | what is returned was there when its page was read |
| `Paging.FixedTable` | src/main/java/monasca/api/resource/Links.java:145-185 | on a fixed table the pages are the tenant's rows sorted by id |
| `Paging.PagesAreFew` | src/main/java/monasca/api/resource/Links.java:157-161 | every next link uses up a whole page of the ids that ever occur, so a traversal ends |
| `AlarmGrouping.ReadMetric` | src/main/java/monasca/api/infrastructure/persistence/mysql/AlarmMySqlRepositoryImpl.java:180-191 | the dimensions of a row: none where the column is missing, an exception for a null or a malformed text |
| `AlarmGrouping.PrintedIsRead` | src/main/java/monasca/api/infrastructure/persistence/mysql/AlarmMySqlRepositoryImpl.java:184-190 | a printed list of dimensions is read as its dictionary, under the metric name of the row |
| `AlarmGrouping.MetricRaisesIff` | src/main/java/monasca/api/infrastructure/persistence/mysql/AlarmMySqlRepositoryImpl.java:183-189 | it raises just for a null or a part with no value behind an equals sign |
| `AlarmGrouping.CreateAlarms` | src/main/java/monasca/api/infrastructure/persistence/mysql/AlarmMySqlRepositoryImpl.java:164-194 | the loop computes the grouping of the rows read so far, and fails just if a row cannot be read |
| `AlarmGrouping.RowsAreConserved` | src/main/java/monasca/api/infrastructure/persistence/mysql/AlarmMySqlRepositoryImpl.java:169-192 | flattening the alarms gives back all rows in order |
| `AlarmGrouping.EachAlarmOnce` | src/main/java/monasca/api/infrastructure/persistence/mysql/AlarmMySqlRepositoryImpl.java:170-179 | each id is listed once just if its rows stand together |
| `AlarmGrouping.GroupingIsGroupBy` | src/main/java/monasca/api/infrastructure/persistence/mysql/AlarmMySqlRepositoryImpl.java:164-194 | then each alarm has exactly the metrics of its id in row order, and the fields of the first of its rows |
| `FileCache.Cache.ReadCachedFile` | monasca/openstack/common/fileutils.py:44-66 | the file is read, and flagged so, just if a reload is forced, there is no data or the file has a later time; otherwise the data kept is given; other entries stay |
| `FileCache.Cache.DeleteCachedFile` | monasca/openstack/common/fileutils.py:69-77 | the entry is gone, the others stay |
| `FileCache.ReadKeepsOk` | monasca/openstack/common/fileutils.py:56-65 | cached data is never older than the cached time |
| `FileCache.ReadsAreCurrent` | monasca/openstack/common/fileutils.py:44-77 | over every run each call returns contents the file had during the call, just if a time that has not grown means unchanged contents; strictly later writes see to that |
| `FileCache.StaleRun` | monasca/openstack/common/fileutils.py:61 | otherwise two calls that return stale contents |
| `MetricKey.BuildKey` | src/main/java/monasca/api/app/MetricService.java:79-95 | the key is the same for every order in which the map may give its entries |
| `MetricKey.KeyEndsWith` | src/main/java/monasca/api/app/MetricService.java:79-107 | the key is tenant and name, and name and value of each dimension in the order of their names |
| `MetricKey.KeyForgetsOrder` | src/main/java/monasca/api/app/MetricService.java:97-107 | the sorted arrangement of the entries is unique |
| `MetricKey.KeysMayCollide` | src/main/java/monasca/api/app/MetricService.java:79-95 | two metrics with one key |
| `Ordering.SortForgetsOrder` | monasca/common/repositories/model/sub_alarm_definition.py:103-104 | a sorted arrangement depends on the multiset alone |

## Left out

- QueryExactness.QueryIsExact: queries of several dimensions whose special bytes decide the order of the comparator; they find what they want, and what else they find depends on where the comparator puts the names they match.
- QueryExactness.PercentQueryIsExact: the same queries.
- QueryExactness.PlainQueryIsExact: the branch without a metric name, which has no separator behind the region, so that a region also finds longer ones.
- PythonListing.LinksListAllIff: which names are decoded, and which raise, is a parameter; texts behind the offset that no link carries are decoded as Java would.
- PythonSeriesName.DecodesForm: bytes that are no UTF-8, which make the Python decoder raise.
- MetricListing.LinksListAllIff: the order of names is by code points; Java compares UTF-16 units, which differ for supplementary characters. Malformed UTF-8 gives one replacement character for each byte.
- UrlCodec.FormRoundTrip: the conversion between UTF-16 and UTF-8, except for ids; hexadecimal digits outside ASCII, which Java's decoder also accepts.
- SeriesQuery.CompareLaws: case folding is a parameter of the comparator.
- NamedLocks.ExternalExclusion: forked processes, which inherit descriptors and semaphores, green threads, and a failing unlock or close.
- JavaDiff.SubExpressionsFor: random ids are a supply of unused, distinct ones.
- PythonDiff.TableIsExpression: numbers are compared as numbers; the Python code compares period and periods as text, so that leading zeros differ.
- PythonDiff.SubAlarmDifference: the delete statement of the Python code binds a definition instead of its id; rows are deleted by id here.
- DefinitionRuns.RunKeeps: match_by is stored as a list; the database joins it with commas and splits it again.
- DefinitionRuns.AlarmDefinition.Update: actions, names, severities, events and transactions around the tables.
- Supervisor.ProcessLauncher.Wait: a failing fork or kill, the child side of a fork, and the state behind an exception that ends the loop. A start that has begun when a signal comes still gives its child.
- LockProgress.Progress: a fair scheduler; that every call can go on is proved, not that every schedule lets it.
- ListedSeries.ListsStoredMetrics: series with an empty part, which the Python decoder does not read back (`PythonSeriesName.DecodesPercent`).
- Supervisor.ProcessLauncher.StartChild: time is a real number that does not run backwards.
- Paging.NotificationMethodRepository.Find: the collation of ids in the database, and the text of the links.
- AlarmGrouping.CreateAlarms: states that are no alarm state, at which the source throws; the metric list an alarm shares with the loop is a value here, and the row limit of the alarm query counts metrics.
- FileCache.Cache.ReadCachedFile: threads inside one call, and reads that see half a write.
- SubAlarmDefinition.EqualHashEqually: string and float hashes are parameters; thresholds are exact numbers.
- The key-ordered find of alarm definitions, which is that of notification methods, and the rows of actions.
- remove_external_lock_file, measurement and statistics queries, validators, authentication, Kafka, InfluxDB and SQL calls, JSON and wiring.
- The NFKD, pyparsing and regular-expression engines: the constructs the code uses have direct definitions here.
