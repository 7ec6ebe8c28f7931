# ResilienceScan report builder — a Dafny model

ResilienceScan turns the answers of a supply-chain resilience survey into one PDF report per respondent and mails each report to its respondent. The pipeline has these steps:

1. It converts the Excel master database into `cleaned_master.csv`.
2. It cleans that data: it removes records without a usable company, person or address, records with too few valid scores, and duplicates.
3. It checks each record against an eligibility gate.
4. It renders reports with Quarto. This is done in three places: the GUI's batch loop, the stand-alone script and the single-report helper.
5. Three validators check the rendered PDFs against the CSV, and an Excel-versus-CSV integrity check compares the two data files.
6. The reports are mailed, either from the GUI's email tab or by a stand-alone script.
7. The GUI also checks GitHub for a newer release.

This project models each of these steps in Dafny and proves what the code promises about each one. Examples:

- the reasons and their order in the eligibility gate;
- the character safety of the file-name sanitisers, and how file names parse back;
- the counters of every loop;
- the tolerance and absent-value rules of the validators;
- what the cleaners keep and drop;
- the guarantees about the `reportsent` column;
- the account and recipient rules of the mailers;
- the version ordering of the update check.

Stateful parts are Dafny classes with `modifies` clauses:

- the GUI's report folder and batch state;
- the integrity validator and the cleaning validator, with their statistics;
- the email tab's frame and tracker log.

Each loop of the source is a `while` loop proved against a specification function. That function's properties are proved as lemmas.

| file | module | source |
|---|---|---|
| wrappers.dfy | Wrappers | `Option` |
| text.dfy | Text | `str.strip`, `str.lower`, substring search and Python `float()` on text, in ASCII |
| table.dfy | Table | pandas cells: missing, text, boolean, number; records as maps; `str()` and truthiness |
| eligibility.dfy | Eligibility | `validate_record_for_report` and how the cleaners' record filters differ from it |
| naming.dfy | Naming | `safe_filename`, `safe_display_name` and the output and temporary file names |
| filenames.dfy | FilenameParse | the three parsers of report file names |
| batch.dfy | Batch | `generate_reports_thread` and `cancel_generation` |
| report_script.dfy | ReportScript | `generate_reports` of generate_all_reports.py |
| single_report.dfy | SingleReport | generate_single_report.py |
| scores.dfy, single_validation.dfy | Scores, SingleValidation | validate_single_report.py |
| reports_validation.dfy | ReportsValidation | validate_reports.py |
| detailed_validation.dfy | DetailedValidation | validate_reports_detailed.py |
| integrity.dfy | Integrity | validate_data_integrity.py |
| cleaning_enhanced.dfy | CleaningEnhanced | clean_data_enhanced.py |
| clean_data.dfy, dedup.dfy | CleanData, Dedup | clean_data.py and the shared keep-first deduplication |
| convert.dfy | Convert | convert_data.py |
| update_checker.dfy | UpdateCheck | update_checker.py |
| email_app.dfy | EmailApp | the email tab of app/main.py |
| email_script.dfy | EmailScript | send_email.py, including the `fnmatch` rules `glob` applies |

The operations model the code as written, including where its comments say otherwise:

- app/main.py:2546 says the gate uses "the same logic" as clean_data_enhanced.py. They differ, and `Eligibility` states how.
- An existing report counts as a success in the GUI but as skipped in the script. `Batch` and `ReportScript` model each as written.
- Where the code as written misbehaves (see "## Findings"), the main operation is the as-written one. The corrected definition sits beside it, with a lemma saying where the two agree:
  - `ReportScript.GenerateReports` uses `PersonColumnAsWritten`;
  - `DetailedValidation` reads the company with the lazy expression of validate_reports_detailed.py:299 (`Reading.AsWritten`), and its summary is `None` where the source divides by zero;
  - `Convert.ConvertAndSave` returns `Raised` where `df.insert` raises.

## Model

| member | source | states |
|---|---|---|
| Table.Get | clean_data_enhanced.py:156 | an absent column reads as a missing value, a present one as its cell |
| Table.PyStr | clean_data.py:92 | str() of a text cell is the text and of a missing value "nan" |
| Table.StripTextIsStrip | app/main.py:3547-3548 | str(cell).strip(): a text cell is trimmed, the text of any other cell has no surrounding spaces |
| Table.StripTextTwice | app/main.py:3547-3548 | a trimmed cell text has no surrounding spaces, and trimming it again changes nothing |
| Table.ScoreValue | app/main.py:2588 | float(str(c).replace(",", ".")): a number converts to itself; a boolean or a missing value does not convert |
| Text.Strip | clean_data.py:92 | str.strip() gives a text no longer than the input without surrounding whitespace |
| Text.StripIdempotent | clean_data.py:92 | stripping twice is stripping once |
| Text.ParseDecimal | app/main.py:2588 | float() succeeds only on text that is not blank |
| Text.DecimalRejects | clean_data_enhanced.py:156 | float() fails on a text holding a character no decimal literal has, such as ',' |
| Text.DecimalOfPointed | clean_data_enhanced.py:156 | float() of digits, a point and digits is their decimal value |
| Eligibility.AvailableScores | app/main.py:2582-2592 | the number of counting score columns is at most the 15 listed columns |
| Eligibility.CountScoresLocal | app/main.py:2583-2592 | the count depends only on the listed columns' presence and values |
| Eligibility.CountScoresAll | app/main.py:2583-2592 | the count equals the number of columns exactly when every listed column holds a usable score |
| Eligibility.AvailableScoresIgnoresOtherColumns | app/main.py:2564-2592 | changing a column outside the 15 score columns leaves the count unchanged |
| Eligibility.RecordEligibility | app/main.py:2548-2602 | valid iff company, person, email and at least 5 scores all pass; the verdict is the first failing check in the order company, person, email, scores, and an insufficient verdict carries the count |
| Eligibility.ReasonText | app/main.py:2551-2602 | the reason is "Valid" exactly for the valid verdict, and the insufficient-data reason shows the count out of 15 and the minimum 5 |
| Eligibility.CountAvailableScores | app/main.py:2582-2592 | the counting loop returns the count of score columns that hold a number in [0, 5] after comma-to-period |
| Eligibility.ValidateRecordForReport | app/main.py:2542-2602 | the checks and the loop together return the gate's verdict |
| Eligibility.IdentityIssues | clean_data_enhanced.py:130-147 | each of the three identity issues is reported iff its check fails, all collected, at most three |
| Eligibility.CompletenessVerdict | clean_data_enhanced.py:149-206 | a record is kept iff it has no identity issue and at least 5 scores; identity issues take precedence over the score count |
| Eligibility.GateStricterThanCleaner | app/main.py:2546-2602 | every record the gate accepts is kept by the enhanced cleaner |
| Eligibility.SentinelCompaniesDiffer | app/main.py:2550 | a company trimmed to "-" or "Unknown" fails the gate but raises no company issue in the enhanced cleaner |
| Eligibility.GateAgreesWithCleanerOffSentinels | app/main.py:2546-2602 | apart from those two company texts, the gate accepts exactly what the enhanced cleaner keeps |
| Eligibility.LowerOfUnknownVariants | clean_data.py:89 | "Unknown", "UNKNOWN" and "unknown" all lower-case to "unknown" |
| Eligibility.CaseVariantsLowered | clean_data.py:89 | a company trimmed to "unknown" or "UNKNOWN" is dropped by the older cleaner's lower-then-strip test |
| Eligibility.CleanDataCompanyPassesGate | clean_data.py:86-89 | every company the older cleaner keeps passes the gate's company check |
| Eligibility.CaseVariantsOfUnknownDiffer | app/main.py:2550 | "unknown" in a case other than "Unknown" passes the gate's company check but is dropped by the older cleaner |
| Naming.KeepOrUnderscore | generate_all_reports.py:49-50 | same length; keeps alphanumerics, spaces and '-', turns every other character into '_' |
| Naming.SafeFilename | generate_all_reports.py:45-51 | "Unknown" for a missing or empty name; otherwise same length as the text, alphanumerics and '-' kept, every other character (spaces included) becomes '_' |
| Naming.SafeFilenameIdempotent | generate_all_reports.py:45-51 | sanitising an already sanitised name changes nothing |
| Naming.DisplayChar | generate_all_reports.py:61-69 | a safe character is kept; an unsafe one is replaced by nothing or by a safe character |
| Naming.DisplayMap | generate_all_reports.py:61-69 | the result has none of / \ : * ? " < > \|, and a text without them is unchanged |
| Naming.ReplaceUnsafeConcat | generate_all_reports.py:61-69 | the chain of nine replacements distributes over concatenation |
| Naming.ReplaceUnsafeIsOnePass | generate_all_reports.py:61-69 | the nine successive replacements equal the one-pass character map |
| Naming.SafeDisplayName | generate_all_reports.py:54-70 | "Unknown" for a missing or empty name; never contains / \ : * ? " < > \|; a name without those characters is only trimmed |
| Naming.DisplayKeepsSafeText | generate_all_reports.py:54-70 | a non-empty, already trimmed name without unsafe characters is shown as it is, spaces and case included |
| Naming.SingleReportDisplayName | generate_single_report.py:28-35 | the empty name becomes "Unknown", any other name is the batch display name, and no unsafe character remains |
| Naming.DisplayAvoids | generate_single_report.py:28-35 | a character that is in neither the name nor "Unknown" and that no replacement produces stays out of the display name |
| Naming.SingleReportPersonDisplay | generate_single_report.py:38 | "Report" when no person is given, otherwise the person's display name, with no unsafe character |
| Naming.ReportFilename | generate_all_reports.py:132 | the final name is date, title, company and person with 11 fixed characters around them |
| Naming.BatchTempFilename | generate_all_reports.py:147 | the temp name is "temp_" company "_" person ".pdf" |
| Naming.SingleTempFilename | generate_single_report.py:49 | the temp name is "temp_" company ".pdf" |
| Naming.SafeFilenamePlain | generate_all_reports.py:45-51 | a sanitised name has no '/', no '\' and no space |
| Naming.BatchTempNameIsPlain | generate_all_reports.py:147 | the batch temp name built from sanitised names has no path separator and no space |
| Naming.ReportNameIsPlain | generate_all_reports.py:132 | the final report name built from display names has no path separator |
| Naming.SingleTempNameIsPlain | generate_single_report.py:49 | the single-report temp name has no path separator |
| FilenameParse.RSplitSeparator | validate_reports.py:47-49 | Some iff the text contains " - "; the two parts rejoined with " - " give the text back, and no separator occurs after the cut |
| FilenameParse.RSplitJoined | validate_reports.py:49 | splitting company + " - " + person at the last separator gives back both parts when the person part cannot start another separator |
| FilenameParse.FirstGroupStart | validate_reports.py:32-43 | the leftmost start position from which the "\((.+)\)\.pdf$" group matches, or None when there is none |
| FilenameParse.PdfParensContent | validate_reports.py:32-46 | group 1 is non-empty and has no newline; a name without the "(...).pdf" ending (case-insensitive) gives None |
| FilenameParse.ParsePdfFilename | validate_reports.py:35-50 | Some iff the parenthesised text exists and contains " - "; both returned parts are stripped |
| FilenameParse.ParseReportFilename | validate_reports.py:35-50 | parsing a name built by the report template gives back the stripped company and person, when neither has a newline and the person has no " - " and does not start with "- " |
| FilenameParse.InlineContent | app/main.py:3788-3796 | Some only when ").pdf" and one of the two markers occur; the current marker is tried first and the text between it and the first ").pdf" is taken |
| FilenameParse.InlineParse | app/main.py:3798-3799 | Some iff the marker text contains " - "; the two parts rejoined with " - " give that text back |
| FilenameParse.MarkerContent | app/main.py:3790-3793 | after a prefix without '(', the text between the marker and ").pdf" is recovered when it contains neither |
| FilenameParse.InlineContentOfScanName | app/main.py:3790-3793 | a name made of prefix, current marker, content and ").pdf" yields exactly that content |
| FilenameParse.InlineParseReportFilename | app/main.py:3787-3799 | the inline parser returns the unstripped display names from a name the report template built |
| FilenameParse.PathStem | validate_reports_detailed.py:297 | the stem is a prefix of the name, and when it differs it stops at a '.' that is neither first nor last |
| FilenameParse.FinalClose | validate_reports_detailed.py:299 | the only position where "\)\.?$" can match, if any |
| FilenameParse.DetailedGroup | validate_reports_detailed.py:299 | the text the two groups can cover: non-empty and without ')'; None without a final ')' |
| FilenameParse.HyphenTailMatches | validate_reports_detailed.py:299 | the optional group "(?:\s*-\s*[^)]+)" matches a rest exactly when it is spaces, a '-', spaces and a non-empty text |
| FilenameParse.LazyCut | validate_reports_detailed.py:299 | the lazy group 1 ends at the first position from k on where the optional group matches the rest, or at the end |
| FilenameParse.DetailedCompany | validate_reports_detailed.py:299-305 | as written: Some iff the expression matches; the company is trimmed and has no ')' |
| FilenameParse.DetailedCompanyFixed | validate_reports_detailed.py:298 | corrected: the text before the last " - " of the group, or the whole group, trimmed; Some iff the expression matches |
| FilenameParse.CutBeforeHyphen | validate_reports_detailed.py:299 | a group made of a hyphen-free text followed by '-' and more is cut just before the hyphen |
| FilenameParse.PathStemOfPdf | validate_reports_detailed.py:297 | the stem of a name ending in ".pdf" is the name without it |
| FilenameParse.ReportStemGroup | validate_reports_detailed.py:297-299 | in a report filename's stem the expression selects exactly "company - person" |
| FilenameParse.DetailedCompanyOfReportName | validate_reports_detailed.py:299-305 | a company without '-' is read back whole and trimmed |
| FilenameParse.DetailedCompanyCutsAtHyphen | validate_reports_detailed.py:299-305 | a company with a '-' is cut at its first hyphen |
| FilenameParse.CocaColaIsReadAsCoca | validate_reports_detailed.py:299-305 | the report for "Coca-Cola" is read back as company "Coca" |
| FilenameParse.DetailedCompanyFixedOfReportName | validate_reports_detailed.py:298 | the corrected reading gives back any company the template wrote, trimmed |
| Batch.Folder.Add | app/main.py:2815 | the folder's file set gains exactly the name |
| Batch.Folder.Remove | app/main.py:2796-2864 | the folder's file set loses exactly the name |
| Batch.JobOf | app/main.py:2668-2732 | a job is eligible iff the record passes the pre-generation gate; its final name holds a space and its temporary name holds none and no path separator; when the date, the title and the names are plain, the final name parses back to the company and the person shown in it |
| Batch.Jobs | app/main.py:2648 | one job per record, in record order |
| Batch.LeftBehind | app/main.py:2802-2808 | the temporary file is left behind exactly when a cancel seen at or after wait() follows a render that wrote it |
| Batch.AppOutcome | app/main.py:2649-2884 | each of the six outcomes holds exactly under its condition: a cancel request stops; an ineligible record is skipped; an existing final file counts as already there; a render that exits with code 0 and leaves the temporary file is generated; a cancel seen between output lines or after wait() stops; a cancel that cleared the process handle before wait() is counted as failed; every other case fails |
| Batch.AppStep | app/main.py:2649-2900 | skipped, already-there, generated and failed each raise exactly their own counter; a stop raises none; a cancel counted as failed raises failed and ends the run; the folder only gains the final name and a temporary file a cancel leaves behind, and only loses the temporary name |
| Batch.AppRun | app/main.py:2648-2911 | no more records are processed than there are, and a run that did not stop processed all of them |
| Batch.StoppedRunStays | app/main.py:2806-2809 | once a prefix of the run has stopped, the later records change nothing |
| Batch.UncancelledRunCompletes | app/main.py:2911-2935 | without a cancellation every record is processed, so the incomplete warning is not logged |
| Batch.RunKeepsFinals | app/main.py:2728-2815 | final report files already in the folder survive the run, and every file the run adds is the final name of one of its jobs or a temporary file a cancelled job left behind |
| Batch.RunSplits | app/main.py:2648 | running two batches one after the other leaves the same folder and stop flag as running their concatenation |
| Batch.GeneratedFinalPersists | app/main.py:2811-2815 | a report generated at some record is still in the folder at the end of the run |
| Batch.JobsWellNamed | app/main.py:2724-2739 | every job's final name contains a space and its temporary name does not |
| Batch.TempNameHasNoSpace | app/main.py:2677-2739 | the temporary name has no space and the final name has one, so they never coincide |
| Batch.PrepareJob | app/main.py:2668-2739 | builds the job the function JobOf describes |
| Batch.RenderRecord | app/main.py:2783-2870 | reports cancellation iff the cancel was seen between output lines or after wait(), raises iff the handle was cleared before wait(), and success iff quarto exited with 0 and the temporary file exists; on success the temporary file is moved to the final name, on a non-zero exit or a cancel between lines it is deleted, on a cancel at or after wait() it stays, on an exception the folder is unchanged |
| Batch.HandleRecord | app/main.py:2649-2890 | the counters, folder and stop flag after one record are the ones AppStep gives, a cancel caught as an AttributeError included |
| Batch.RunJob | app/main.py:2648-2900 | one loop iteration extends the run of the prefix by one job, or ends the whole run when it stops |
| Batch.GenerateReportsThread | app/main.py:2604-2935 | without the R packages nothing runs and the folder is untouched; otherwise the counters and folder are the ones AppRun gives for the records' jobs, the run is reported incomplete iff fewer records were processed than there are, and then it stopped |
| Batch.CancelAtEofReportedComplete | app/main.py:2802-2925 | as written, a cancel on the last record whose output ends after the handle was cleared is counted as a failure, and the run, though stopped, processed every record, so GENERATION COMPLETE is logged |
| Batch.Guarded | app/main.py:2789-2808 | corrected: with wait() on a possibly cleared handle guarded, such a cancel becomes a cancel seen after wait(); every other job is unchanged |
| Batch.GuardedJobs | app/main.py:2648 | the guarded job of each record, in order |
| Batch.StoppedIffIncomplete | app/main.py:2911-2912 | without a cancel counted as failed, a run stopped exactly when it processed fewer records than there are |
| Batch.GuardedRunReportsCancel | app/main.py:2911-2912 | corrected: with the guarded wait, the summary says INCOMPLETE exactly when the run was stopped |
| ReportScript.NormalizeColumns | generate_all_reports.py:82 | every header is lower-cased and trimmed, order and count kept |
| ReportScript.FirstColumnContaining | generate_all_reports.py:85-86 | None iff no column contains the key; otherwise a column that contains it |
| ReportScript.CompanyKeyContainsPersonKey | generate_all_reports.py:13-14 | "company_name" contains "name" |
| ReportScript.PersonColumnCanBeCompanyColumn | generate_all_reports.py:85-86 | as written, with "company_name" before "name" the person column found is the company column |
| ReportScript.FirstColumnContainingNot | generate_all_reports.py:86 | None iff every column lacks the key or contains the excluded text; otherwise such a column |
| ReportScript.PersonColumnAsWritten | generate_all_reports.py:86 | as written: the person column found contains "name", and one is always found when some column contains "company_name" |
| ReportScript.PersonColumn | generate_all_reports.py:86 | corrected: the person column contains "name" and not "company_name", and is found whenever a "name" column exists |
| ReportScript.PersonColumnIsNotCompanyColumn | generate_all_reports.py:85-86 | with the correction the company and person columns are never the same |
| ReportScript.PersonColumnOfCleanedColumns | generate_all_reports.py:85-86 | on the cleaned master's own headers the corrected lookup picks "name" |
| ReportScript.ScriptJobNamesCompanyTwice | generate_all_reports.py:116-133 | as written, when the person column is the company column, the final file name shows the company in both the company and the person place |
| ReportScript.ScriptPerson | generate_all_reports.py:118-121 | the person used is never a missing value: the column's value, or "Unknown" |
| ReportScript.ScriptJobOf | generate_all_reports.py:111-147 | a row is handled iff its company is present and not blank; it carries the row's render outcome |
| ReportScript.ScriptJobs | generate_all_reports.py:110 | one job per row, in row order |
| ReportScript.ScriptStep | generate_all_reports.py:113-218 | a blank-company row changes nothing; an existing report is skipped; generated iff the render exits with 0 and the temporary file exists, which is then moved to the final name; a failed render's temporary file stays; only the final name is ever added |
| ReportScript.NamedCount | generate_all_reports.py:113-115 | at most one handled row per row |
| ReportScript.ScriptRun | generate_all_reports.py:110-218 | generated, skipped and failed together count exactly the handled rows |
| ReportScript.ScriptRunKeepsReports | generate_all_reports.py:135-176 | no report is removed, and every new report is the final name of some job |
| ReportScript.TotalEntries | generate_all_reports.py:102 | total_entries counts at most all rows |
| ReportScript.CompanyRows | generate_all_reports.py:113-115 | the handled rows are among the total_entries rows |
| ReportScript.BlankCompanies | generate_all_reports.py:102-114 | at most all rows have a present but blank company |
| ReportScript.NamedCountOfJobs | generate_all_reports.py:110-115 | the handled jobs are exactly the rows with a non-blank company |
| ReportScript.BlankCompaniesMakeUpDifference | generate_all_reports.py:102-114 | handled rows plus blank-company rows give total_entries |
| ReportScript.CountedWithinTotal | generate_all_reports.py:102-116 | the summary's generated + skipped + failed falls short of its Total by exactly the blank-company rows |
| ReportScript.GenerateReports | generate_all_reports.py:73-218 | without a "company_name" column it fails and changes nothing; otherwise its counters and both folders are those of ScriptRun over the rows, with the person column as the code finds it |
| ReportScript.RunRows | generate_all_reports.py:110-218 | the folders and counters after the loop are those of ScriptRun over the rows' jobs |
| ReportScript.RunJobs | generate_all_reports.py:110-218 | the loop over the jobs ends in ScriptRun's state |
| ReportScript.CountTotalEntries | generate_all_reports.py:102 | counts exactly the rows with a present company |
| ReportScript.HandleRow | generate_all_reports.py:111-218 | one row's effect on counters and folders is ScriptStep's |
| ReportScript.ExistingReportCountedDifferently | generate_all_reports.py:136-139 | an existing report is a success in the application and a skip in the script, and neither touches the folder |
| ReportScript.FailedRenderTempDiffers | generate_all_reports.py:192-211 | after a failed render the script leaves the temporary file behind where the application deletes it |
| SingleReport.SingleOutcome | generate_single_report.py:37-105 | True iff the render exits with 0 and the temporary file exists; then the report is added and the temporary file moved; otherwise the reports folder is unchanged and a written temporary file stays |
| SingleReport.GenerateSingleReport | generate_single_report.py:11-105 | the result and the folders are SingleOutcome's |
| SingleReport.SingleOutcomeKeepsReports | generate_single_report.py:41-80 | no report is removed and the new report's name has no path separator |
| SingleReport.TitlePlain | generate_single_report.py:42 | the report title has no path separator and no '(' |
| SingleReport.ReportSplitsCleanly | generate_single_report.py:38 | the fallback person "Report" survives the filename parser unchanged |
| SingleReport.ParseWithReportPerson | generate_single_report.py:38-43 | a name built with person "Report" parses back to the trimmed company and "Report" |
| SingleReport.SingleReportWithoutPersonParses | generate_single_report.py:37-43 | a report made without a person parses back to its display company and "Report" |
| Scores.Present | validate_single_report.py:125 | keeps at most the given values, and is empty iff every cell is missing |
| Scores.Mean | validate_single_report.py:125-127 | None iff every cell is missing; otherwise the mean times the number of present values is their sum |
| Scores.PresentWithin | validate_single_report.py:125 | bounds on the cells carry over to the present values |
| Scores.SumWithin | validate_single_report.py:127 | a sum of values in [lo, hi] lies between lo and hi times their count |
| Scores.ScaleKeepsOrder | validate_single_report.py:127 | multiplying by a positive count keeps the order of two values |
| Scores.QuotientWithin | validate_single_report.py:127 | a total bounded by lo and hi times a positive count gives a mean in [lo, hi] |
| Scores.MeanWithin | validate_single_report.py:125-127 | a mean of values in [lo, hi] lies in [lo, hi] |
| Scores.SumOfCopies | validate_single_report.py:127 | the sum of n copies of c is c times n |
| Scores.MeanOfEqualValues | validate_single_report.py:125-127 | when every present value equals c and one is present, the mean is c |
| Scores.Reported | validate_single_report.py:159-162 | the truthiness test: a present non-zero average is reported as it is; a reported value is never zero |
| Scores.ExpectedOf | validate_single_report.py:117-163 | the overall value is absent iff no pillar mean exists or the mean of the existing pillar means is zero |
| Scores.ExpectedWithinScale | validate_single_report.py:117-163 | with every score in [0, 5] all four expected values lie in [0, 5] |
| Scores.ZeroPillarAbsentButAveraged | validate_single_report.py:155-162 | an all-zero upstream pillar is reported as absent yet still pulls the overall value down to 1.5 |
| Scores.MeanOfOne | validate_single_report.py:127 | the mean of one value is that value |
| Scores.MeanOfZeroAndThree | validate_single_report.py:155-156 | the pillar means 0 and 3 with one missing average to 1.5 |
| Scores.FieldMatchBoundary | validate_single_report.py:222-255 | a difference of exactly the tolerance matches and any larger one does not; two missing values match; a value on one side only does not |
| Scores.FieldMatchSymmetric | validate_single_report.py:222-255 | the match rule does not depend on which side is expected |
| SingleValidation.Pick | validate_single_report.py:67-87 | the letters pattern wins, then the μ= pattern, then the avg: pattern; absent iff none matched |
| SingleValidation.ExtractScores | validate_single_report.py:25-92 | each pillar takes its highest-priority capture and the overall value the "Overall SCRES" capture |
| SingleValidation.FirstSelected | validate_single_report.py:101-115 | None iff no row matches the company (and the person, when given); otherwise the first matching row |
| SingleValidation.ExpectedValues | validate_single_report.py:95-115 | "Company not found" iff no row has the company; "Person not found" iff a person is given and no row of the company has it; a Found result comes from a selected row |
| SingleValidation.DetailOf | validate_single_report.py:216-253 | the detail entry holds both values and matches iff the tolerance rule holds |
| SingleValidation.Details | validate_single_report.py:216-253 | one detail per key, in key order |
| SingleValidation.Mismatches | validate_single_report.py:234-255 | at most one mismatch per key; none iff every key matches |
| SingleValidation.ValidateOutcome | validate_single_report.py:169-264 | unreadable text, no extracted scores, a CSV that cannot be loaded ("Error loading CSV") and a failed CSV lookup each fail with their own message and no details; success iff none of these happens and every key matches, and then all four details are present |
| SingleValidation.ValidateReport | validate_single_report.py:169-264 | returns what ValidateOutcome describes |
| SingleValidation.CompareFields | validate_single_report.py:212-255 | the loop's details and mismatches are those of the first four keys, and all_match holds iff every key matches |
| SingleValidation.MismatchCount | validate_single_report.py:260 | the reported mismatch count is the number of keys that do not match |
| SingleValidation.OneSidedIsMissingValue | validate_single_report.py:247-255 | a value present on one side only is reported as a "Missing value" mismatch |
| SingleValidation.MismatchesContain | validate_single_report.py:234-238 | every key that does not match has its mismatch entry |
| ReportsValidation.VerdictOfMeaning | validate_reports.py:89-127 | a PDF is an error iff its name does not parse, and passes iff validate_report succeeds for the parsed company and person |
| ReportsValidation.Count | validate_reports.py:110-127 | one file adds one to exactly one counter |
| ReportsValidation.TallyOf | validate_reports.py:85-127 | every PDF is counted exactly once, as passed, failed or error |
| ReportsValidation.TallyOfSnoc | validate_reports.py:89-127 | the tally of the first i + 1 PDFs counts PDF i on top of the first i |
| ReportsValidation.PassRate | validate_reports.py:130 | the rate lies in [0, 100], is 0 without parseable reports and 100 when none failed |
| ReportsValidation.RateTimesCount | validate_reports.py:130 | the rate times the parseable count is 100 times the passed count |
| ReportsValidation.GateInIntegers | validate_reports.py:141-158 | the 90 % gate holds iff some report was parseable and ten times the passed count reaches nine times the parseable count |
| ReportsValidation.ValidateAll | validate_reports.py:53-153 | a missing CSV, a missing folder or no PDF gives the all-zero summary; otherwise the counters are those of TallyOf, the total is their sum and the rate is PassRate |
| ReportsValidation.ValidateFile | validate_reports.py:90-127 | returns the verdict VerdictOf assigns |
| ReportsValidation.UnparseableFilesIgnoredByRate | validate_reports.py:91-130 | adding PDFs whose names do not parse only raises the error count, so the pass rate does not move |
| ReportsValidation.UnparseableFilesAddErrors | validate_reports.py:91-95 | each appended PDF whose name does not parse adds one error and nothing else |
| ReportsValidation.UnreadableCsvPassesNothing | validate_reports.py:89-127 | when the CSV cannot be loaded no PDF passes, and every PDF is a failure or an error |
| DetailedValidation.PillarOf | validate_reports_detailed.py:178-180 | dimension k belongs to pillar k div 5 |
| DetailedValidation.PositionOf | validate_reports_detailed.py:178-180 | dimension k is letter k mod 5 of its pillar |
| DetailedValidation.DimKeyEnds | validate_reports_detailed.py:184 | a result key starts with its pillar's initial and ends with its dimension letter |
| DetailedValidation.DimKeysDistinct | validate_reports_detailed.py:184 | the fifteen result keys are pairwise different, so no dimension overwrites another |
| DetailedValidation.ExpectedDetailed | validate_reports_detailed.py:109-115 | None iff no row has the company; otherwise the values come from a row of the company |
| DetailedValidation.Get | validate_reports_detailed.py:172-183 | a key's value when the extracted scores hold it, else None |
| DetailedValidation.PillarEntry | validate_reports_detailed.py:170-197 | a pillar entry holds both averages and matches iff the tolerance rule holds |
| DetailedValidation.DimEntry | validate_reports_detailed.py:178-227 | a dimension entry holds both values and matches under the lenient rule, which accepts a value the CSV lacks |
| DetailedValidation.OverallEntry | validate_reports_detailed.py:229-246 | the overall entry holds both values and matches only when both are present and within the tolerance |
| DetailedValidation.PillarEntries | validate_reports_detailed.py:170-197 | the three pillar entries in pillar order |
| DetailedValidation.DimEntriesStep | validate_reports_detailed.py:178-227 | the dimension loop appends one entry per step |
| DetailedValidation.DimEntries | validate_reports_detailed.py:178-227 | one entry per dimension visited |
| DetailedValidation.DimEntriesAt | validate_reports_detailed.py:178-227 | entry k is the entry of dimension k |
| DetailedValidation.CompareAllValues | validate_reports_detailed.py:167-248 | the pillar, dimension and overall results are the entries above |
| DetailedValidation.ComparePillars | validate_reports_detailed.py:170-197 | the pillar loop produces PillarEntries |
| DetailedValidation.CompareDimensions | validate_reports_detailed.py:178-227 | the nested loops produce all fifteen dimension entries in order |
| DetailedValidation.OverallStricterThanPillar | validate_reports_detailed.py:229-246 | an overall match is a pillar-rule match, and two missing values match as pillars but not as overall |
| DetailedValidation.DimensionLenient | validate_reports_detailed.py:178-227 | the dimension rule accepts every pillar-rule match and a value missing only from the CSV, and rejects a value missing only from the PDF |
| DetailedValidation.MatchedCount | validate_reports_detailed.py:362-366 | at most all dimensions matched |
| DetailedValidation.Issues | validate_reports_detailed.py:362-380 | matched dimensions plus issues give the dimensions checked; no issues iff every dimension matched |
| DetailedValidation.CompanyStatus | validate_reports_detailed.py:338-407 | checked, matched and issues are the counts above, and all_match holds iff pillars, dimensions and overall all match |
| DetailedValidation.CompanyPassesMeaning | validate_reports_detailed.py:403-407 | a company passes iff its three pillars match under the pillar rule, its fifteen dimensions under the dimension rule and its overall value under the overall rule |
| DetailedValidation.CompanyRead | validate_reports_detailed.py:299-305 | under either reading a company is read iff the name has the bracketed group, and it has no surrounding spaces |
| DetailedValidation.ResultOfMeaning | validate_reports_detailed.py:295-418 | under the given reading, a PDF gets an entry iff a company is read from its name, the company has a CSV row and scores were extracted; the entry has fifteen dimensions and passes iff the company passes |
| DetailedValidation.HyphenatedCompanySkipped | validate_reports_detailed.py:299-310 | as written, the report of "Coca-Cola" is read as company "Coca" and skipped when no row has "Coca"; the corrected reading validates it as "Coca-Cola" |
| DetailedValidation.ResultOfFifteen | validate_reports_detailed.py:414-415 | an entry counts fifteen dimensions, at most all matched |
| DetailedValidation.Results | validate_reports_detailed.py:293-418 | under the given reading, at most one entry per PDF |
| DetailedValidation.ReadingsAgree | validate_reports_detailed.py:299 | when the lazy and the corrected reading give the same company for every name, both give the same results |
| DetailedValidation.ResultsHaveFifteenDims | validate_reports_detailed.py:414-415 | every entry counts fifteen dimensions, at most all matched |
| DetailedValidation.ValidatePdf | validate_reports_detailed.py:295-418 | the body of the loop for one PDF gives ResultOf under the as-written reading |
| DetailedValidation.CollectResults | validate_reports_detailed.py:293-418 | the loop over the PDFs gives Results under the as-written reading |
| DetailedValidation.PassedCount | validate_reports_detailed.py:425 | at most all entries passed |
| DetailedValidation.TotalsOfFifteen | validate_reports_detailed.py:428-429 | the dimensions checked are fifteen per entry and the matched ones do not exceed them |
| DetailedValidation.MatchRateAsWritten | validate_reports_detailed.py:436 | as written: fails iff no dimension was checked |
| DetailedValidation.SummaryAsWritten | validate_reports_detailed.py:425-436 | as written: no summary (the division by zero) iff no dimension was checked; otherwise passed plus failed is the number validated and the totals are the sums over the entries |
| DetailedValidation.NoValidatedCompanyCrashes | validate_reports_detailed.py:436 | as written, a folder where no PDF yields a validated company ends in a division by zero instead of a summary |
| DetailedValidation.NoResultsOfUnmatched | validate_reports_detailed.py:293-418 | PDFs that yield no entry leave the result list empty |
| DetailedValidation.MatchRate | validate_reports_detailed.py:436 | corrected: a rate in [0, 100], 0 when nothing was checked and 100 when everything matched |
| DetailedValidation.MatchRateAgrees | validate_reports_detailed.py:436 | when something was checked the corrected rate is the written one |
| DetailedValidation.SummaryOf | validate_reports_detailed.py:425-446 | passed plus failed is the number validated, fifteen dimensions are checked per company, the rate lies in [0, 100], and all passed iff every entry matched |
| DetailedValidation.SummaryAsWrittenIsSummaryOf | validate_reports_detailed.py:425-436 | the written summary fails iff there is no entry, and otherwise is the corrected summary |
| DetailedValidation.AllPassedCount | validate_reports_detailed.py:425-438 | every entry passed iff the passed count equals the number of entries |
| DetailedValidation.DetailedMain | validate_reports_detailed.py:266-446 | the results are those of the loop under the as-written reading; with no entry the run ends in the division by zero and gives no summary; otherwise the summary counts the entries, and the success message appears iff every entry matched |
| Integrity.KeyTextIsNormalisedText | validate_data_integrity.py:194-196 | the key text of a cell is its Python text trimmed and lower-cased |
| Integrity.LowerPairIsLower | validate_data_integrity.py:194-196 | a text lowered character by character is Lower of it |
| Integrity.LiteralKeyText | validate_data_integrity.py:194-196 | a literal rendering without edge spaces keys to its lower-case form |
| Integrity.FirstBarAfter | validate_data_integrity.py:197 | the first '\|' of a joined key lies right after a part without '\|' |
| Integrity.JoinInjective | validate_data_integrity.py:197 | a "\|\|"-join splits back uniquely when the first part has no '\|' |
| Integrity.KeyJoinInjective | validate_data_integrity.py:197 | two three-part keys are equal iff their parts are, when company and name have no '\|' |
| Integrity.RecordKeyIdentifies | validate_data_integrity.py:192-197 | two records share a key iff their normalised company, name and email agree, when company and name have no '\|' |
| Integrity.EmptyScoreIsMissingTest | validate_data_integrity.py:202-203 | a score is empty iff it is missing or its trimmed text is "", "?" or "nan" |
| Integrity.CsvFloat | validate_data_integrity.py:213 | a number converts to itself |
| Integrity.Decide | validate_data_integrity.py:205-224 | both empty match; one empty is a mismatch; with both present a failed conversion is an error; a match iff both are empty or both convert and lie within 0.01 |
| Integrity.CommaTextIsNotEmpty | validate_data_integrity.py:202 | a comma decimal is never taken for an empty score |
| Integrity.CommaTextIsStripped | validate_data_integrity.py:202-212 | a comma decimal has no surrounding space |
| Integrity.DigitLedIsNoMarker | validate_data_integrity.py:202 | a text starting with a digit is no empty marker |
| Integrity.CommaReadAsPoint | validate_data_integrity.py:212 | replacing ',' by '.' turns ip,fp into ip.fp |
| Integrity.CommaDecimalOnlyOnExcelSide | validate_data_integrity.py:212-213 | a comma decimal in the Excel cell is read as the number and compared; the same text in the CSV cell is a conversion error |
| Integrity.ExcelSideComparison | validate_data_integrity.py:212-224 | an Excel comma decimal is compared as its value |
| Integrity.CsvSideComparison | validate_data_integrity.py:213-224 | a CSV comma decimal fails to convert |
| Integrity.ExcelCommaIsPoint | validate_data_integrity.py:212 | an Excel comma decimal converts to the value with a point |
| Integrity.CsvCommaFails | validate_data_integrity.py:213 | float() rejects a comma decimal |
| Integrity.BasicTally | validate_data_integrity.py:240-251 | every identity field is checked once and is either matched or listed as a mismatch |
| Integrity.BasicTallyStep | validate_data_integrity.py:241-251 | one more identity field adds one check and a match iff the trimmed, lowered texts agree |
| Integrity.ScoreTally | validate_data_integrity.py:272-287 | at most all score columns are checked, each matched or listed as a mismatch |
| Integrity.SharedColumns | validate_data_integrity.py:273 | at most all score columns are on both sides |
| Integrity.ScoreTallyChecksShared | validate_data_integrity.py:273-274 | exactly the score columns present on both sides are checked |
| Integrity.StatusInIntegers | validate_data_integrity.py:295-303 | with some field wrong, acceptable iff ten times the matched fields reach nine times the checked ones, and mismatch otherwise |
| Integrity.SampleOf | validate_data_integrity.py:226-305 | a sample checks the three identity fields plus the shared score columns, each matched or listed, with the status the 0.9 rule gives |
| Integrity.SampleNeverNoFields | validate_data_integrity.py:290-293 | the no_fields status cannot occur, and perfect holds iff nothing is listed as a mismatch |
| Integrity.LookupOf | validate_data_integrity.py:314-317 | every CSV row's key is in the lookup, and every entry is a row with that key |
| Integrity.LastRowWins | validate_data_integrity.py:314-317 | a key kept by one row only from some point on maps to that row |
| Integrity.BuildLookup | validate_data_integrity.py:314-317 | the loop builds LookupOf |
| Integrity.SampleSize | validate_data_integrity.py:322-323 | the sample count is the requested count, capped at the number of Excel rows |
| Integrity.EntryOf | validate_data_integrity.py:330-356 | a sample is missing in the CSV iff its key is not in the lookup; otherwise it is validated against the looked-up row |
| Integrity.EntriesOf | validate_data_integrity.py:330-356 | one entry per sampled index |
| Integrity.EntriesStep | validate_data_integrity.py:330-356 | the loop appends the next sample's entry, numbered from 1 |
| Integrity.EntriesAccounted | validate_data_integrity.py:343-366 | perfect, acceptable, mismatch and missing counts together add up to the number of samples |
| Integrity.TallyIdentity | validate_data_integrity.py:240-251 | the identity-field loop gives BasicTally |
| Integrity.TallyScores | validate_data_integrity.py:272-287 | the score-column loop gives ScoreTally |
| Integrity.Accuracy | validate_data_integrity.py:401-410 | the accuracy lies in [0, 100], is 0 without validated samples and 100 when all of them matched |
| Integrity.IntegrityValidator.constructor | validate_data_integrity.py:26-39 | all counters start at zero with no samples |
| Integrity.IntegrityValidator.ValidateSample | validate_data_integrity.py:226-305 | returns SampleOf and raises the counter of its status |
| Integrity.IntegrityValidator.CountResult | validate_data_integrity.py:290-303 | raises exactly the counter of the status |
| Integrity.IntegrityValidator.RecordSample | validate_data_integrity.py:330-356 | appends the sample's entry and keeps counters and samples in agreement |
| Integrity.IntegrityValidator.SampleStep | validate_data_integrity.py:330-356 | one loop iteration appends the next entry |
| Integrity.IntegrityValidator.ValidateSamples | validate_data_integrity.py:307-373 | appends one entry per sampled index against the CSV lookup, keeps the counters in agreement, and validated plus missing grow by the sample count |
| Integrity.CellTextIsLowered | validate_data_integrity.py:120-122 | the text of a present cell is its Python text lowered |
| Integrity.KeywordCells | validate_data_integrity.py:123-126 | at most all cells hold a keyword |
| Integrity.FirstHeaderFrom | validate_data_integrity.py:119-131 | the first row among the first ten with at least three keyword cells, or None when there is none |
| Integrity.HeaderRow | validate_data_integrity.py:117-131 | the first of the first ten rows with three keyword cells, and row 0 when none has them |
| Integrity.DetectHeaderRow | validate_data_integrity.py:117-131 | the detection loop gives HeaderRow |
| Integrity.KeepWordChars | validate_data_integrity.py:150 | keeps only word characters, and leaves a text of word characters unchanged |
| Integrity.KeepWordCharsAfterRemoving | validate_data_integrity.py:143-150 | removing a non-word character before the filter changes nothing |
| Integrity.CleanColumnIsFilter | validate_data_integrity.py:137-152 | a cleaned column name is the word characters of the trimmed, lowered name with spaces as '_' |
| Integrity.CleanColumnCharacters | validate_data_integrity.py:137-152 | a cleaned column name has only lower-case word characters |
| Integrity.LowerHasNoUpper | validate_data_integrity.py:142-144 | lowering leaves no upper-case letter |
| Integrity.FilterKeepsNoUpper | validate_data_integrity.py:150 | filtering a text without upper-case letters gives clean text |
| Integrity.CleanOfCleanText | validate_data_integrity.py:137-152 | cleaning a clean name changes nothing |
| Integrity.FilterOfCleanText | validate_data_integrity.py:137-152 | the filter form also leaves clean text unchanged |
| Integrity.CleanTextStripped | validate_data_integrity.py:142 | clean text has no edge space |
| Integrity.CleanColumnIdempotent | validate_data_integrity.py:137-152 | cleaning column names twice gives the same names as once |
| CleaningEnhanced.NumericOnly | clean_data_enhanced.py:279 | keeps only digits, '.' and '-', never lengthening the text |
| CleaningEnhanced.Clip | clean_data_enhanced.py:285 | the result lies in [0, 5]; values inside are kept, lower ones become 0 and higher ones 5 |
| CleaningEnhanced.CleanScoreText | clean_data_enhanced.py:272-285 | the cleaned value of a text is missing or lies in [0, 5], and the markers "?", "", " " and "nan" become missing |
| CleaningEnhanced.NumericOnlyDrops | clean_data_enhanced.py:279 | a text with no numeric character filters to nothing |
| CleaningEnhanced.FlagTextCleansToMissing | clean_data_enhanced.py:233-282 | a boolean's text "True"/"False" cleans to a missing value |
| CleaningEnhanced.CleanedCellWithinScale | clean_data_enhanced.py:272-285 | after cleaning a score cell is missing or a number in [0, 5] |
| CleaningEnhanced.CleanedCellCounts | clean_data_enhanced.py:150-160 | the later completeness check counts exactly the cleaned score cells that are not missing |
| CleaningEnhanced.NumericOnlyConcat | clean_data_enhanced.py:279 | the filter distributes over concatenation |
| CleaningEnhanced.NumericOnlyKeeps | clean_data_enhanced.py:279 | a text of numeric characters passes the filter unchanged |
| CleaningEnhanced.CoreParses | clean_data_enhanced.py:236-282 | a text matching "^[0-5](\.[0-9]+)?$" survives the replacements and converts to its value |
| CleaningEnhanced.CleanOfConverted | clean_data_enhanced.py:272-285 | a non-marker text whose filtered form converts to v cleans to v clipped |
| CleaningEnhanced.NewlineFiltered | clean_data_enhanced.py:279 | a final newline is removed by the filter |
| CleaningEnhanced.FormatCleansToValue | clean_data_enhanced.py:236-285 | every text the pattern accepts, with or without a final newline, cleans to its value |
| CleaningEnhanced.CoreCleans | clean_data_enhanced.py:236-285 | a text in the pattern cleans to its value |
| CleaningEnhanced.NewlineCoreCleans | clean_data_enhanced.py:236-285 | a pattern text followed by a newline cleans to the same value |
| CleaningEnhanced.MissingAfterCleaningIsCounted | clean_data_enhanced.py:236-241 | every value that cleaning makes missing, other than "nan", is counted as invalid |
| CleaningEnhanced.CommaBecomesPoint | clean_data_enhanced.py:276 | replacing ',' by '.' turns ip,fp into ip.fp |
| CleaningEnhanced.PointedIsNumeric | clean_data_enhanced.py:279 | ip.fp passes the filter unchanged |
| CleaningEnhanced.CommaDecimalCleans | clean_data_enhanced.py:272-285 | a European decimal cleans to its value, clipped |
| CleaningEnhanced.FourPointFive | clean_data_enhanced.py:276-282 | the digits 4 and 5 around a point denote 4.5 |
| CleaningEnhanced.DigitsClean | clean_data_enhanced.py:272-285 | a digit string cleans to its value, clipped |
| CleaningEnhanced.FortyFiveCleans | clean_data_enhanced.py:285 | "45" cleans to 5 |
| CleaningEnhanced.CommaScoreLoggedButKept | clean_data_enhanced.py:236-264 | as written, "4,5" and "45" are logged as set to missing, yet the cleaned frame holds 4.5 and 5 |
| CleaningEnhanced.LoggedAsSetToMissing | clean_data_enhanced.py:236-264 | as written: a value in the score format is never logged, and a value that is not logged and not "nan" keeps a cleaned value |
| CleaningEnhanced.SetToMissing | clean_data_enhanced.py:272-285 | corrected: a value cleaning sets to missing is never in the score format |
| CleaningEnhanced.SetToMissingIsLogged | clean_data_enhanced.py:236-264 | corrected: every value cleaning really sets to missing is among the logged ones and is missing in the frame |
| CleaningEnhanced.PartlyCleaned | clean_data_enhanced.py:228-229 | cleaning some columns keeps the record's set of columns |
| CleaningEnhanced.CleanRow | clean_data_enhanced.py:228-285 | every score column of the record is cleaned and every other column is kept |
| CleaningEnhanced.ColumnInvalid | clean_data_enhanced.py:236-240 | at most one invalid value per record |
| CleaningEnhanced.ScoreColumnsDistinct | clean_data_enhanced.py:18-34 | the fifteen score columns are pairwise different |
| CleaningEnhanced.PartlyCleanedStep | clean_data_enhanced.py:228-285 | cleaning one more column changes that column only, from its original value |
| CleaningEnhanced.CleanCellAt | clean_data_enhanced.py:233-285 | one record's cell of the column is cleaned and its invalid count added |
| CleaningEnhanced.CleanOneColumn | clean_data_enhanced.py:229-285 | one column is cleaned in every record and its invalid count added to the total |
| CleaningEnhanced.CleanScoreFrame | clean_data_enhanced.py:219-311 | every record becomes CleanRow of it, and the total is the invalid count over all score columns |
| CleaningEnhanced.CleanRowScoresWithinScale | clean_data_enhanced.py:282-285 | a cleaned score column holds a missing value or a number in [0, 5] |
| CleaningEnhanced.CleanRowKeepsIdentity | clean_data_enhanced.py:228-229 | score cleaning leaves company, name and email untouched |
| CleaningEnhanced.JoinIssues | clean_data_enhanced.py:180 | one issue is reported as its own text |
| CleaningEnhanced.KeptOf | clean_data_enhanced.py:127-209 | no more records are kept than there are |
| CleaningEnhanced.InsufficientIn | clean_data_enhanced.py:203 | at most every removal was for too few scores |
| CleaningEnhanced.InsufficientInConcat | clean_data_enhanced.py:203 | the insufficient count adds over concatenation |
| CleaningEnhanced.KeptOrRemoved | clean_data_enhanced.py:165-206 | every record is either kept or recorded as removed |
| CleaningEnhanced.KeptOfMembers | clean_data_enhanced.py:165-209 | a record is kept iff it is in the frame and the completeness verdict keeps it |
| CleaningEnhanced.KeptOfConcat | clean_data_enhanced.py:129-209 | the kept records of two frames together are the kept records of each, in order |
| CleaningEnhanced.Filtered | clean_data_enhanced.py:209 | a filter never lengthens a sequence |
| CleaningEnhanced.FilteredConcat | clean_data_enhanced.py:209 | filtering distributes over concatenation |
| CleaningEnhanced.KeptIsFiltered | clean_data_enhanced.py:206-209 | the kept records are the frame filtered by the verdict, in order |
| CleaningEnhanced.FitsInLonger | clean_data_enhanced.py:175-202 | a removal entry stays valid when later records are added |
| CleaningEnhanced.RemovalsReferToRows | clean_data_enhanced.py:175-202 | each removal entry names its spreadsheet row (position + 2), that record's company and person, and a verdict that drops it |
| CleaningEnhanced.InsufficientReason | clean_data_enhanced.py:200 | the reason of a removal for too few scores names the count and the minimum of 5 |
| CleaningEnhanced.CheckRecord | clean_data_enhanced.py:130-206 | the verdict is CompletenessVerdict and the record is kept iff it says keep |
| CleaningEnhanced.CompletenessStep | clean_data_enhanced.py:129-206 | one loop iteration extends the kept records, the removals and the insufficient count by the next record |
| CleaningEnhanced.PassExtends | clean_data_enhanced.py:129-206 | one more record is appended to either the kept list or the removals |
| CleaningEnhanced.CompletenessPass | clean_data_enhanced.py:121-217 | the loop gives exactly the kept records, the removal entries and the insufficient count the functions describe |
| CleaningEnhanced.LowerAll | clean_data_enhanced.py:99 | every column name is lowered, order kept |
| CleaningEnhanced.MissingFrom | clean_data_enhanced.py:100-105 | a required column is reported missing iff it is not among the lowered names |
| CleaningEnhanced.MissingRequiredMeaning | clean_data_enhanced.py:93-108 | a required column is missing iff no column lowers to it |
| CleaningEnhanced.DataCleaningValidator.constructor | clean_data_enhanced.py:38-50 | no removed records and all statistics zero |
| CleaningEnhanced.DataCleaningValidator.CleanScoreColumns | clean_data_enhanced.py:219-311 | returns the cleaned frame and records the invalid count as invalid_values_replaced, nothing else changed |
| CleaningEnhanced.DataCleaningValidator.ValidateRecordCompleteness | clean_data_enhanced.py:121-217 | returns the kept records, appends the removal entries and raises the insufficient-data count by theirs |
| CleaningEnhanced.DataCleaningValidator.RemoveDuplicates | clean_data_enhanced.py:313-337 | keeps the first record per (company, email) and records the dropped count only when something was dropped |
| CleaningEnhanced.CleanedFrame | clean_data_enhanced.py:493 | each record of the frame is cleaned, order kept |
| CleaningEnhanced.AddReportSent | clean_data_enhanced.py:519-520 | every record gains reportsent = False, order kept |
| CleaningEnhanced.SummaryOf | clean_data_enhanced.py:546-565 | the summary ends with the final count and opens with the all-passed line iff nothing was removed, dropped or excluded |
| CleaningEnhanced.AllPassedIffNothingRemoved | clean_data_enhanced.py:513-561 | with a fresh validator the summary says all passed iff no record was removed and no duplicate dropped |
| CleaningEnhanced.StatisticsAddUp | clean_data_enhanced.py:500-516 | removed_rows is the removal entries plus the duplicates dropped, lies between 0 and initial_rows, and includes every insufficient-data record |
| CleaningEnhanced.OutcomeAfterColumns | clean_data_enhanced.py:496-530 | once the columns are present, no kept record fails with "no valid data"; otherwise the result is the saved rows and summary, or the save error |
| CleaningEnhanced.CleanSteps | clean_data_enhanced.py:493-521 | the validator ends with the removals and statistics the functions describe, and the rows to save are SavedRows when any record was kept |
| CleaningEnhanced.CleanFrame | clean_data_enhanced.py:493-570 | the result after the column check is OutcomeOf, with the statistics and removals above |
| CleaningEnhanced.CleanAndFix | clean_data_enhanced.py:447-570 | a missing input, a failed load, missing columns, no remaining record and a failed save each fail with their own message; otherwise the cleaned rows and the summary, with initial_rows, removals and statistics as described |
| CleaningEnhanced.ReportSentIsNoScoreColumn | clean_data_enhanced.py:519-520 | the added column is no score column |
| CleaningEnhanced.ReportSentIsNoIdentityColumn | clean_data_enhanced.py:519-520 | the added column is no identity column |
| CleaningEnhanced.SameIdentitySameVerdict | clean_data_enhanced.py:130-206 | the verdict depends only on company, name, email and the available scores |
| CleaningEnhanced.ReportSentIsNeutral | clean_data_enhanced.py:519-520 | adding reportsent changes neither the verdict nor the duplicate key |
| CleaningEnhanced.SurvivorIsKeptCleanRow | clean_data_enhanced.py:493-510 | every surviving record is a cleaned input record that the verdict keeps |
| CleaningEnhanced.SavedRowsGuarantees | clean_data_enhanced.py:493-526 | every saved record passes the completeness verdict and has reportsent, and no two saved records share company and email |
| CleaningEnhanced.SavedScoresWithinScale | clean_data_enhanced.py:282-285 | every saved score is missing or a number in [0, 5] |
| CleanData.RequiredIssues | clean_data.py:46-49 | one error per missing required column, in order |
| CleanData.RecommendedIssues | clean_data.py:52-57 | one warning per missing recommended column, in order |
| CleanData.ValidateRequiredColumns | clean_data.py:34-70 | the check passes iff every issue it records is a recommended-column warning |
| CleanData.HasColumnLowered | clean_data.py:41-47 | a column is present iff it is among the lowered column names |
| CleanData.ValidateRequiredColumnsMeaning | clean_data.py:34-70 | the check passes iff "company_name" and "name" are present, compared case-insensitively |
| CleanData.RenderedCompanyKept | clean_data.py:86-89 | the text of a boolean or a number passes all four company filters |
| CleanData.CompanyKeptIsCleanData | clean_data.py:86-89 | the four filters on one cell agree with the text-level rule the eligibility gate uses |
| CleanData.FixCompanyRows | clean_data.py:86-92 | no row is added |
| CleanData.FixCompanyRowsMembers | clean_data.py:86-92 | a row survives iff it is an input row whose company passes the filters, with its company trimmed |
| CleanData.FixCompanyRowsConcat | clean_data.py:86-92 | filtering two frames together equals filtering each |
| CleanData.TrimmedTextKept | clean_data.py:92 | a kept company text, trimmed, is still kept and has no edge space |
| CleanData.TrimmedCompanyIsFixed | clean_data.py:86-92 | a kept row is fixed after trimming, and trimming again changes nothing |
| CleanData.FixedCompanyTrimmed | clean_data.py:86-92 | a fixed row passes the filters and trimming leaves it as it is |
| CleanData.FixCompanyRowsFixed | clean_data.py:86-92 | every surviving row holds a trimmed company that passes the filters |
| CleanData.FixCompanyRowsOfFixed | clean_data.py:86-92 | a frame of fixed rows passes unchanged |
| CleanData.SnocSplit | clean_data.py:86 | a non-empty frame is its prefix plus its last row |
| CleanData.FixCompanyRowsIdempotent | clean_data.py:73-102 | fixing company names twice gives the same rows as once |
| CleanData.FixedCompanyPassesGate | clean_data.py:86-92 | a fixed company passes the company test of the pre-generation gate |
| CleanData.TrimColumn | clean_data.py:126-151 | trimming one column keeps the other columns and the set of columns |
| CleanData.TrimRows | clean_data.py:126-151 | each row is trimmed, order and count kept |
| CleanData.TrimColumnMeaning | clean_data.py:126-128 | a trimmed cell is missing iff it was, is otherwise the stripped text without edge space, and trimming again changes nothing |
| CleanData.EmptyCount | clean_data.py:116-117 | at most all rows are counted as empty |
| CleanData.EmptyCountAfterTrim | clean_data.py:116-128 | trimming a column does not change how many of its cells count as empty |
| CleanData.FixPersonNames | clean_data.py:105-132 | no row is removed and the columns are kept |
| CleanData.TrimmedEmailPattern | clean_data.py:146-157 | on trimmed text the pattern's final-newline allowance plays no part |
| CleanData.PlainAddressMatches | clean_data.py:146 | "ab@cd.nl" matches the address pattern |
| CleanData.ShortTopLevelFails | clean_data.py:146 | "a@b.c" does not, its top-level domain being one letter |
| CleanData.NoAtFails | clean_data.py:146 | a text without '@' never matches |
| CleanData.InvalidEmails | clean_data.py:154-158 | at most all addresses are counted as invalid |
| CleanData.InvalidEmailsZero | clean_data.py:154-165 | the count is zero iff every present, non-blank address matches |
| CleanData.CountInvalidEmails | clean_data.py:154-158 | the loop counts InvalidEmails |
| CleanData.FixEmailAddresses | clean_data.py:135-168 | no row is removed; without the column nothing changes; otherwise the addresses are trimmed and the malformed ones counted |
| CleanData.WithEmailRows | clean_data.py:366-370 | no row is added |
| CleanData.WithEmailRowsMembers | clean_data.py:366-370 | a row survives iff it is an input row with a present, non-blank address |
| CleanData.ScoreColumnsOf | clean_data.py:394-398 | exactly the columns starting with up__, in__, do__ or overall_ |
| CleanData.IdentityColumnsAreNoScores | clean_data.py:394-398 | company, name and email are never converted |
| CleanData.ToNumeric | clean_data.py:402 | the result is missing or a number; a number is kept; a text becomes missing iff it does not parse |
| CleanData.NumericColumn | clean_data.py:400-403 | converting one column keeps every row's columns |
| CleanData.MissingCount | clean_data.py:403 | at most all cells are missing |
| CleanData.NewlyMissing | clean_data.py:403 | at most all cells become missing |
| CleanData.ConversionCount | clean_data.py:400-403 | after conversion the missing cells are the earlier ones plus those that failed to parse |
| CleanData.NumericAll | clean_data.py:400-403 | converting the score columns keeps every row's columns |
| CleanData.NumericAllKeeps | clean_data.py:400-403 | a column that is not converted keeps its cells |
| CleanData.NumericAllConverts | clean_data.py:400-403 | a converted column holds only missing values and numbers |
| CleanData.FixNumericColumns | clean_data.py:393-408 | the loop gives the converted rows and the count of newly missing cells |
| CleanData.AfterCompanies | clean_data.py:351-356 | step 5 keeps the columns |
| CleanData.AfterTrims | clean_data.py:358-362 | steps 6 and 7 keep the columns and remove no row |
| CleanData.AfterEmails | clean_data.py:364-375 | step 7b keeps the columns |
| CleanData.AfterDuplicates | clean_data.py:378-390 | step 7c keeps the columns |
| CleanData.CleanAndFix | clean_data.py:305-445 | a missing data directory, a missing input, a failed load, missing required columns and a failed save each fail with their own message; otherwise the frame after all steps with the summary lines in step order |
| CleanData.FilterSteps | clean_data.py:351-375 | steps 5 to 7b give the frame after the email filter and the invalid-company summary line when rows were removed |
| CleanData.CleanSteps | clean_data.py:351-408 | all steps give the saved frame and its summary lines |
| CleanData.TrimKeepsFixedCompany | clean_data.py:126-151 | trimming another column keeps a fixed company |
| CleanData.TrimsKeepCompany | clean_data.py:358-362 | after steps 6 and 7 every row still holds a fixed company |
| CleanData.EmailsMember | clean_data.py:364-370 | a row after step 7b comes from step 7 and has an address when the column exists |
| CleanData.DuplicatesMember | clean_data.py:378-387 | a row after step 7c comes from step 7b |
| CleanData.NumericKeepsIdentity | clean_data.py:393-403 | the numeric step keeps every row's columns and its company, name and email |
| CleanData.DeduplicatedRowsGuarantees | clean_data.py:351-390 | every row after step 7c holds a fixed company and, when the column exists, an address |
| CleanData.SavedRowsGuarantees | clean_data.py:351-420 | every saved row holds a fixed company that passes the gate and, when the column exists, an address |
| CleanData.SavedRowsDistinct | clean_data.py:380-387 | with all three identity columns present, no two saved rows share company, name and email |
| CleanData.RemovedAddUp | clean_data.py:351-390 | the rows removed by steps 5, 7b and 7c plus the rows saved make up the rows loaded |
| CleanData.MixedCaseCompanyColumnIsNotCleaned | clean_data.py:41-89 | a company column spelt in another case passes the column check, yet fix_company_names then removes no row |
| Dedup.KeyOf | clean_data.py:385-387 | the key holds the cells of the subset's columns, in order |
| Dedup.KeyIgnoresOtherColumns | clean_data_enhanced.py:322-324 | changing a column outside the subset keeps the key |
| Dedup.KeyOfAgrees | clean_data.py:385-387 | rows that agree on the subset's columns have the same key |
| Dedup.KeepFirst | clean_data.py:385-387 | dropping duplicates never adds a row |
| Dedup.KeysOfSnoc | clean_data.py:385-387 | one more row adds its key to the frame's keys |
| Dedup.KeepFirstKeys | clean_data.py:385-387 | the kept rows have exactly the keys of the input |
| Dedup.KeepFirstSubset | clean_data.py:385-387 | every kept row is an input row |
| Dedup.KeepFirstDistinct | clean_data.py:385-387 | no two kept rows share a key |
| Dedup.KeepFirstKeepsFirsts | clean_data.py:385-387 | the first row with a key is kept |
| Dedup.DistinctSplit | clean_data.py:385-387 | a frame without duplicate keys splits into a prefix without them and a last row with a new key |
| Dedup.KeepFirstOfDistinct | clean_data.py:385-387 | a frame without duplicate keys is kept as it is |
| Dedup.KeepFirstIdempotent | clean_data.py:385-387 | dropping duplicates twice gives the same rows as once |
| Dedup.DropDuplicates | clean_data_enhanced.py:322-333 | the loop keeps the first row per key, and the count is the number of rows dropped |
| Convert.KeepNormal | convert_data.py:45 | keeps only lower-case letters, digits and spaces, and leaves a text made only of them as it is |
| Convert.KeepNormalConcat | convert_data.py:45 | the filter works character by character: filtering a concatenation concatenates the filtered parts |
| Convert.NormalizeCol | convert_data.py:34-47 | a normalised name is made of [a-z0-9_] and is never longer than the raw name |
| Convert.NormalizeIsPipeline | convert_data.py:44-46 | on a name whose lower-cased form has no surrounding spaces the trim plays no part |
| Convert.PipelineConcat | convert_data.py:44-46 | without the trim the normaliser works piecewise over a concatenation |
| Convert.PipelineWord | convert_data.py:44-46 | a word of lower-case letters and digits is kept as it is |
| Convert.PipelineUpper | convert_data.py:44 | a capital letter becomes its lower-case letter |
| Convert.PipelineDropped | convert_data.py:45 | punctuation (anything not a capital, a lower-case letter, a digit or a space) is dropped |
| Convert.PipelineSpace | convert_data.py:46 | a space becomes an underscore |
| Convert.Spelled | convert_data.py:44-46 | one character becomes at most one character |
| Convert.PipelineIsSpelling | convert_data.py:44-46 | the normaliser without its trim equals spelling each character on its own |
| Convert.NormalizeLowersCapital | convert_data.py:39-44 | a capitalised word ('Name') is lower-cased ('name') |
| Convert.NormalizeSpaceBecomesUnderscore | convert_data.py:40-46 | two words joined by a space ('email address') are joined by an underscore |
| Convert.NormalizeDropsPunctuation | convert_data.py:39-45 | punctuation between two words ('E-mail') disappears |
| Convert.NormalizeDropsUnderscores | convert_data.py:45 | an underscore already in the raw name is dropped, since the filter keeps only [a-z0-9 ] |
| Convert.NormalizeFixes | convert_data.py:34-47 | a name of lower-case letters and digits is its own normal form |
| Convert.LexLeTotal | convert_data.py:53 | the order sorted() uses is total |
| Convert.LexLeTrans | convert_data.py:53 | and transitive |
| Convert.LexLeRefl | convert_data.py:53 | and reflexive |
| Convert.WithExtension | convert_data.py:53 | exactly the names ending with the extension |
| Convert.Smallest | convert_data.py:53-55 | the first name after sorting: one of the names, before or equal to every other |
| Convert.FindExcelMeaning | convert_data.py:50-56 | no workbook iff no name ends with .xlsx or .xls; otherwise the first .xlsx in sorted order, or, when there is none, the first .xls |
| Convert.ChooseSheet | convert_data.py:76 | "MasterData" when the workbook has it, otherwise the first sheet |
| Convert.RowValuesMeetMarkers | convert_data.py:67-68 | the set of a row's lowered, stripped, present values meets the markers iff some cell of the row is "submitdate" or "reportsent" |
| Convert.HeaderSkipRows | convert_data.py:59-70 | the index of the first of the first ten rows holding a marker, or 0 when none does |
| Convert.FilledRows | convert_data.py:136 | exactly the rows that are not entirely missing, none added |
| Convert.Where | convert_data.py:137 | the ascending indices below n that satisfy the test, all of them |
| Convert.Project | convert_data.py:137 | the selected columns with their names, for every row |
| Convert.DropBlankRows | convert_data.py:136 | the header is kept |
| Convert.DropBlankColumns | convert_data.py:137 | no row is dropped |
| Convert.NormalizeHeader | convert_data.py:140 | each column name is normalised, the cells are kept |
| Convert.DropUnnamed | convert_data.py:143 | no column left is named unnamed_N, and every column left was there before |
| Convert.RowOf | convert_data.py:154-155 | a record has a cell for exactly the named columns |
| Convert.ToFrame | convert_data.py:143 | one record per row, each with exactly the frame's columns |
| Convert.Normalized | convert_data.py:136-143 | one record per non-blank row; no unnamed_N column; every name made of [a-z0-9_] |
| Convert.RuleOf | convert_data.py:97-104 | match by hash when both frames have it, else by email_address when both have it, else by name and company when both have both, else not at all |
| Convert.LastMatch | convert_data.py:99-107 | the last old record with the key, as a dictionary built from the old records keeps it, or none when no record has it |
| Convert.Restore | convert_data.py:100-108 | one record per record |
| Convert.Preserve | convert_data.py:81-110 | the columns and the number of records are kept |
| Convert.PreserveNoOp | convert_data.py:88-95 | without reportsent in the new frame, without a readable CSV or without reportsent in it the frame is returned as it is |
| Convert.PreserveOnlyReportSent | convert_data.py:99-109 | no cell other than reportsent changes |
| Convert.PreserveUnmatched | convert_data.py:100-108 | a record without a key, or whose key no old record has, keeps its own value |
| Convert.PreserveMatched | convert_data.py:97-109 | a record with a key takes the value of the last old record with that key, unless it is missing |
| Convert.MatchKeyIgnoresReportSent | convert_data.py:99-106 | the key of a record does not depend on its reportsent cell |
| Convert.PreserveIdempotent | convert_data.py:81-110 | restoring twice from the same CSV gives what restoring once does |
| Convert.Inserted | convert_data.py:152 | a reportsent column of False is added to every record, none removed |
| Convert.WithReportSent | convert_data.py:151-152 | afterwards the frame has reportsent; a frame that had it is kept as it is |
| Convert.HeaderOnlySheetRaises | convert_data.py:136-152 | a sheet with a header and no data rows loses all its columns and the insertion at position 1 raises out of convert_and_save |
| Convert.WithReportSentAsWritten | convert_data.py:151-152 | as written, the insertion raises iff the frame has no column at all; otherwise it gives the guaranteed frame |
| Convert.ConversionAsWritten | convert_data.py:113-160 | as written, the conversion raises iff a workbook is found and read and its normalised frame has no column; otherwise it is the corrected conversion |
| Convert.ConversionOf | convert_data.py:113-160 | the corrected conversion never raises |
| Convert.AsWrittenAgrees | convert_data.py:151-152 | when the frame keeps a column, the code as written and the corrected conversion agree |
| Convert.ConversionSucceeds | convert_data.py:113-160 | True iff a workbook is found and read and the CSV is written; no workbook fails before anything is read |
| Convert.ReportSentIsClean | convert_data.py:152 | "reportsent" is itself a clean column name |
| Convert.NormalizedNamesClean | convert_data.py:140-143 | every column of the normalised frame has a clean name |
| Convert.PreserveShaped | convert_data.py:81-110 | after restoration every record still has exactly the frame's columns |
| Convert.WithReportSentShape | convert_data.py:151-152 | after the insertion every column was there or is reportsent, and every record has reportsent |
| Convert.ConversionHasReportSent | convert_data.py:136-156 | the saved CSV has reportsent in every record and one record per non-blank row of the sheet |
| Convert.ConversionColumnsClean | convert_data.py:140-156 | no saved column is named unnamed_N and every name is made of [a-z0-9_] |
| Convert.FreshSheetDefaultsFalse | convert_data.py:88-152 | a sheet without reportsent gives a CSV whose every record has reportsent False |
| Convert.ConvertAndSave | convert_data.py:113-160 | the step-by-step conversion gives the outcome of the code as written, raising where it raises |
| UpdateCheck.KeepVersionChars | update_checker.py:71 | keeps only digits and dots; a text made only of them is kept as it is, and one with neither becomes empty |
| UpdateCheck.KeepVersionCharsConcat | update_checker.py:71 | the substitution works character by character over a concatenation |
| UpdateCheck.SplitDots | update_checker.py:71 | at least one piece, none containing a dot |
| UpdateCheck.SplitNoDot | update_checker.py:71 | a text without a dot is its own single piece |
| UpdateCheck.SplitAtDot | update_checker.py:71 | a text up to its first dot is the first piece and the rest is split further |
| UpdateCheck.SplitJoin | update_checker.py:71 | splitting pieces joined by dots gives the pieces back |
| UpdateCheck.JoinSplit | update_checker.py:71 | joining the pieces of a split gives the text back |
| UpdateCheck.PartValue | update_checker.py:72 | a non-empty piece of digits is its decimal value, anything else (the empty piece included) is 0 |
| UpdateCheck.Values | update_checker.py:72 | the value of each piece, in order |
| UpdateCheck.ParseVersion | update_checker.py:69-72 | a parsed version has at least one component |
| UpdateCheck.Texts | update_checker.py:69-72 | the decimal text of each component, in order |
| UpdateCheck.RenderIsVersionText | update_checker.py:71 | a rendered version is made of digits and dots only |
| UpdateCheck.ParseRender | update_checker.py:69-72 | parsing the dotted decimal rendering of a tuple gives the tuple back |
| UpdateCheck.ParseIgnores | update_checker.py:71 | text without digits or dots around a version ('v', '-beta') does not change the parse |
| UpdateCheck.ParseDigits | update_checker.py:72 | a bare number parses as a one-component tuple |
| UpdateCheck.TupleLessMeaning | update_checker.py:101 | Python's tuple comparison: a is less than b iff at their first difference a's component is smaller, or a is a proper prefix of b |
| UpdateCheck.TupleLessIrreflexive | update_checker.py:101 | no version is newer than itself |
| UpdateCheck.TupleLessTransitive | update_checker.py:101 | the comparison is transitive |
| UpdateCheck.TupleLessTotal | update_checker.py:101 | two different tuples are ordered one way or the other |
| UpdateCheck.TupleLessAt | update_checker.py:101 | a smaller component after an equal prefix makes the tuple smaller |
| UpdateCheck.NewerPatch | update_checker.py:101 | 1.2.3 is older than 1.2.4 |
| UpdateCheck.NewerMinor | update_checker.py:101 | a higher minor version wins whatever the patch versions |
| UpdateCheck.NewerMajor | update_checker.py:101 | a higher major version wins whatever the rest |
| UpdateCheck.CurrentVersion | update_checker.py:35-66 | the version in app/_version.py when present, else the one in pyproject.toml, else 0.0.0 |
| UpdateCheck.FallbackParsesAsZero | update_checker.py:66-72 | the fallback 0.0.0 parses as (0, 0, 0) |
| UpdateCheck.ZeroIsLeast | update_checker.py:38-101 | every other three-component version is newer than (0, 0, 0) |
| UpdateCheck.FallbackSeesEveryRelease | update_checker.py:38-101 | with the fallback version every release other than 0.0.0 is offered |
| UpdateCheck.StripV | update_checker.py:94 | every leading 'v' is removed and nothing else: the result is a suffix of the tag not starting with 'v' |
| UpdateCheck.StripVParse | update_checker.py:94-101 | stripping the leading 'v's does not change the parse |
| UpdateCheck.CheckForUpdate | update_checker.py:75-106 | an update iff a release was read whose tag, without leading 'v's, is non-empty and parses newer than the running version; it carries that version and the release URL or the releases page; None on every network or JSON failure |
| UpdateCheck.SameVersionNotOffered | update_checker.py:97-102 | a release tagged "v" + the running version is not offered |
| UpdateCheck.OlderNotOffered | update_checker.py:101-102 | an older release is not offered |
| UpdateCheck.OfferedUnlessNotNewer | update_checker.py:97-102 | a non-empty tag is offered, or parses equal to the running version, or older |
| UpdateCheck.EmptyTagNotOffered | update_checker.py:93-98 | a missing tag, or one of 'v's only, is never offered |
| UpdateCheck.SuffixDigitsGlued | update_checker.py:71-72 | the digits of a pre-release suffix are glued onto the last component: 1.2.3-beta2 parses as (1, 2, 32) |
| UpdateCheck.KeptSkipsIgnored | update_checker.py:71 | characters other than digits and dots vanish from the middle of a text |
| UpdateCheck.ParseByKept | update_checker.py:71-72 | texts that keep the same digits and dots parse alike |
| UpdateCheck.GluedSplit | update_checker.py:71-72 | digits appended to a rendered version extend its last component |
| EmailScript.CloseFrom | send_email.py:71-72 | the first ']' at or after the position, or none when there is none |
| EmailScript.ClassEnd | send_email.py:71-72 | a set opened by '[' closes at a ']' at least two places on, so that a leading ']' belongs to the set |
| EmailScript.PlainPrefix | send_email.py:71-72 | a head of the pattern without '*', '?' or '[' matches exactly the same head of the name |
| EmailScript.PlainMatch | send_email.py:71-72 | a pattern without special characters matches exactly the name equal to it |
| EmailScript.StarMatch | send_email.py:71-72 | a leading '*' lets the rest of the pattern match any suffix of the name |
| EmailScript.StarPlain | send_email.py:71-72 | '*' followed by a plain text matches exactly the names that end with that text |
| EmailScript.ClassMatch | send_email.py:71-72 | a closed '[...]' matches one character of its set and the rest of the pattern the rest of the name |
| EmailScript.SingleClass | send_email.py:71-72 | a one-character set holds just that character |
| EmailScript.EscapedPrefix | send_email.py:71-72 | with glob.escape applied, a head of the pattern matches exactly the unescaped text |
| EmailScript.StarEscaped | send_email.py:71-72 | '*' followed by an escaped text matches exactly the names that end with the text |
| EmailScript.EscapePlain | send_email.py:71-72 | escaping changes nothing in a text without special characters |
| EmailScript.PlainConcat | send_email.py:71-72 | two plain texts make a plain text |
| EmailScript.MatchesFromMeaning | send_email.py:72 | glob returns exactly the entries whose name is visible and matches the pattern |
| EmailScript.NewestIn | send_email.py:76 | max(key=mtime): an entry no other entry is newer than, the first of them when several tie |
| EmailScript.FindDisplayed | send_email.py:60-78 | as written: today's file when it is listed; any file found is listed in the folder |
| EmailScript.FindDisplayedFixed | send_email.py:60-78 | with the names escaped: today's file when it is listed; any file found is listed in the folder |
| EmailScript.FindReportFile | send_email.py:53-78 | any file found for a record is listed in the folder |
| EmailScript.FindReportFileFixed | send_email.py:53-78 | with the names escaped, any file found for a record is listed in the folder |
| EmailScript.FindWithMeaning | send_email.py:60-78 | today's exact name when it exists; otherwise None iff the pattern selects no entry, and else the name of a selected entry no selected entry is newer than |
| EmailScript.NewestIsNewest | send_email.py:74-76 | the newest of the selected entries is at least as new as every entry the pattern selects in the folder |
| EmailScript.NameIsDateAndTail | send_email.py:62-71 | a report name is its date, a space and the tail the pattern asks for |
| EmailScript.LiteralPartsPlain | send_email.py:71 | the constant parts of the pattern have no special characters |
| EmailScript.TailPlain | send_email.py:71 | with plain display names the whole tail of the pattern is plain |
| EmailScript.FixedFindsAnyDate | send_email.py:54-78 | with glob.escape, a report of the record of any date is found |
| EmailScript.FixedFindsOnlyTheRecord | send_email.py:54-78 | with glob.escape, every file found is a report of that record |
| EmailScript.AsWrittenIsFixedWithoutBrackets | send_email.py:57-72 | when neither display name contains '[', the lookup as written and the escaped one agree |
| EmailScript.DisplayPlain | send_email.py:35-51 | a display name has no '*' or '?', so only '[' can make it special |
| EmailScript.BracketedNameMissesItsReport | send_email.py:71-72 | as written, a bracketed part of a display name becomes a one-character set, and a report of that record of any date does not match the pattern |
| EmailScript.NoSetMatchAt | send_email.py:71-72 | no suffix of a name that ends in "]" and the rest matches a pattern with a set there, when ']' is not in the set |
| EmailScript.OnlyOlderReport | send_email.py:60-78 | when today's file is absent and the older file does not match, as written the record has no report, while the escaped lookup finds it |
| EmailScript.AcmeDisplayed | send_email.py:35-51 | "Acme [EU]" is shown as it is |
| EmailScript.AcmeParts | send_email.py:71 | "Acme [EU]" splits into plain parts around the set "EU" |
| EmailScript.BracketedCompanyIsSkipped | send_email.py:54-78 | a record of company "Acme [EU]" whose only report is of an earlier date is skipped as written and found with glob.escape |
| EmailScript.AddressRules | send_email.py:128-130 | a record is skipped as invalid iff its address is missing or is a text without '@'; a boolean or number address makes the '@' test raise |
| EmailScript.ReportRules | send_email.py:133-137 | a record with an address is skipped iff no report was found, and is otherwise sent that report |
| EmailScript.RecipientRules | send_email.py:139-164 | a test-mode message goes to the test address with the real address named on top; a live one goes to the record's address with the plain letter; the subject names the company |
| EmailScript.Steps | send_email.py:123 | one step per record |
| EmailScript.StepAt | send_email.py:123-164 | the step of record i is the decision for record i |
| EmailScript.Mapped | send_email.py:123 | one result per element |
| EmailScript.FirstRaise | send_email.py:123-128 | the first record whose '@' test raises, or the end; no record before it raises |
| EmailScript.DeliveredAreSends | send_email.py:166-204 | every message counted as sent is the message of an attempt the transport delivered |
| EmailScript.SentPlusFailed | send_email.py:166-209 | each attempt is counted once, as sent or as failed |
| EmailScript.ShippedReachesOnlyTester | send_email.py:139 | with the settings the script ships with, every message goes to the test address |
| EmailScript.SendEmails | send_email.py:81-209 | missing required columns, or neither Outlook nor a complete SMTP login, end the run before any message; otherwise the messages sent and the failures are those of the records before the first raising one, and sent plus failed is the number of attempts |
| EmailScript.Walk | send_email.py:123-209 | the loop gives the messages and counts of the steps before the first raising record |
| EmailScript.Advance | send_email.py:123-209 | one pass adds the record's step and keeps the counts those of the steps so far |
| EmailScript.StepFn | send_email.py:123-164 | the decision for one record as a function value |
| EmailScript.TabulatesSnoc | send_email.py:123 | one more computed step extends the computed prefix |
| EmailScript.TabulatedPrefix | send_email.py:123 | the computed steps are a prefix of the steps of all records |
| EmailScript.RowStep | send_email.py:133-164 | the report lookup followed by the decision gives the record's step |
| EmailScript.Tally | send_email.py:166-209 | an attempt adds one to sent and its message, or one to failed |
| EmailScript.SamePrefix | send_email.py:123-209 | the counts of the first n steps depend on nothing after them |
| EmailScript.LoopOutcome | send_email.py:123-209 | where the loop stopped gives the counts of the steps before the first raising record |
| EmailScript.FirstRaiseIs | send_email.py:123-128 | the first raising record is the one the loop stopped at |
| EmailApp.SameRecordIgnoresReportSent | app/main.py:3547-3550 | writing reportsent does not change which records the mask picks |
| EmailApp.SameRecordTrimmed | app/main.py:3547-3550 | the mask only sees the trimmed company and person |
| EmailApp.MarkRows | app/main.py:3546-3551 | exactly the picked records get reportsent = v; every other record is unchanged; no other column changes |
| EmailApp.MarkFrame | app/main.py:3543-3563 | the frame stays loaded or absent with the same columns; without reportsent nothing changes |
| EmailApp.MarkAll | app/main.py:3566-3606 | marking a selection keeps the frame's columns, and an absent frame stays absent |
| EmailApp.MarkAllSkips | app/main.py:3546-3596 | a frame without reportsent, or no frame, is left as it is by any selection |
| EmailApp.SetTwice | app/main.py:3551 | setting the flag twice is setting it once |
| EmailApp.PickedSnoc | app/main.py:3572-3577 | a selection grown by one pair picks what it picked plus what the new pair picks |
| EmailApp.MarkRowStep | app/main.py:3572-3577 | one more mark of a record as the earlier marks left it |
| EmailApp.MarkAllRows | app/main.py:3566-3606 | after marking a selection, exactly the records some selected pair picks carry reportsent = v, and every other record is unchanged |
| EmailApp.MarkAllOrderFree | app/main.py:3572-3577 | the order in which the selected records are marked does not matter, nor does a repeated pair |
| EmailApp.MarkRowTwice | app/main.py:3551-3600 | on one record the later of two marks wins |
| EmailApp.MarkLastWins | app/main.py:3543-3606 | the later of two marks of the same record wins: resetting to pending undoes a mark as sent |
| EmailApp.FirstMatch | app/main.py:3471-3476 | the first record the mask picks, or none when it picks no record |
| EmailApp.FirstMatchFrom | app/main.py:3471-3476 | the first record from index k on that the mask picks |
| EmailApp.ReportOf | app/main.py:3446-3503 | an entry carries the names its file name parses to and the file itself, and reads as sent only when the frame has reportsent |
| EmailApp.Lookup | app/main.py:3466-3488 | the entry keeps the parsed names and the file, and reads as sent only when the frame has reportsent |
| EmailApp.Reports | app/main.py:3444-3503 | at most one entry per PDF file |
| EmailApp.Unsent | app/main.py:3821-3830 | exactly the entries not read as sent, in order |
| EmailApp.SentOnes | app/main.py:3508 | exactly the entries read as sent |
| EmailApp.StatusCountsAddUp | app/main.py:3505-3512 | Pending plus Sent is Reports Ready |
| EmailApp.ReportsFromFiles | app/main.py:3444-3503 | every entry comes from one of the files and carries the names its file name parses to |
| EmailApp.NoFrameAllPending | app/main.py:3466-3489 | without loaded data every report is pending and has no address |
| EmailApp.MissingFlagReadsSent | app/main.py:3817-3822 | a record whose reportsent cell is missing reads as sent, because NaN is truthy, and is never offered for sending |
| EmailApp.MarkedSentReadsSent | app/main.py:3480-3563 | once a record is marked sent, a report whose names trim to the record's names reads as sent |
| EmailApp.ResetReadsPending | app/main.py:3583-3606 | once a record is reset to pending, a report whose names trim to the record's names is pending |
| EmailApp.MarkedFlagReads | app/main.py:3543-3563 | a report of a marked record reads the flag written |
| EmailApp.MarkedLookup | app/main.py:3480-3551 | the lookup in a marked frame reads the flag written |
| EmailApp.MarkedFirstMatch | app/main.py:3471-3551 | marking keeps a record the first match for names that trim alike, and it then carries the flag |
| EmailApp.FirstMatchIs | app/main.py:3475-3476 | a picked index with no picked record before it is the first match |
| EmailApp.StartedExactly | app/main.py:3621-3720 | sending starts iff data is loaded, no run is in progress, an SMTP server is entered, a PDF exists, the tracker counts something pending, in test mode the trimmed test address is non-empty with an '@', and the user confirms |
| EmailApp.AskedOnlyAfterChecks | app/main.py:3621-3707 | a refusal before the confirmation does not depend on the answer: the user is only asked once every check has passed |
| EmailApp.StubTrackerNeverStarts | email_tracker.py:14-16 | with the tracker that ships with the app, which counts nothing as pending, Email All always refuses, at the latest at its pending check |
| EmailApp.AccountFor | app/main.py:3983-3990 | the first available account whose address equals the priority address up to case, or none |
| EmailApp.PriorityChoice | app/main.py:3982-3992 | the account of a priority address some account has, or none when no account has any of them |
| EmailApp.SelectedAccount | app/main.py:3978-3999 | an account is chosen iff there is one |
| EmailApp.PriorityChoiceIs | app/main.py:3982-3992 | the choice is the first account with the first priority address that some account has |
| EmailApp.AccountForNone | app/main.py:3983-3990 | when no account has the address, the search finds none |
| EmailApp.PriorityAccountWins | app/main.py:3955-3992 | priority address k is used when no earlier priority address is available, through the first account with it |
| EmailApp.FirstAccountFallback | app/main.py:3994-3996 | without any priority address the first available account is used |
| EmailApp.SelectAccount | app/main.py:3955-3999 | the nested loops with their breaks choose the selected account for the shipped priority list |
| EmailApp.SelectFrom | app/main.py:3978-3999 | the loops choose the selected account for any priority list |
| EmailApp.RecipientOf | app/main.py:3929-3939 | in test mode the test address; otherwise the record's address, and none when it is not text |
| EmailApp.Attempt | app/main.py:3893-4153 | a record is delivered iff it has an address, the recipient is non-empty with an '@' and the transport succeeds; the message then goes to the test address with the note in test mode, or to the record's own address without a note; a record without an address fails as such |
| EmailApp.Outcomes | app/main.py:3876-4153 | the outcome of each pending record, in order |
| EmailApp.Attempted | app/main.py:3876-3879 | the records before the stop request, or all of them |
| EmailApp.SentCount | app/main.py:4138 | at most one sent per record |
| EmailApp.FailedCount | app/main.py:4142 | at most one failed per record |
| EmailApp.Messages | app/main.py:4001-4126 | one message per delivered outcome |
| EmailApp.MessagesDelivered | app/main.py:4001-4138 | every message comes from a delivered outcome |
| EmailApp.Pairs | app/main.py:4130 | the (company, person) pair of each message, in order |
| EmailApp.Calls | app/main.py:4135-4153 | one tracker call per attempted record, mark_sent exactly for the delivered ones |
| EmailApp.SentPlusFailed | app/main.py:4138-4142 | each attempted record is counted once, as sent or as failed |
| EmailApp.OutcomesSnoc | app/main.py:4128-4153 | one more outcome adds to the counters, the messages and the calls accordingly |
| EmailApp.TestModeReachesOnlyTester | app/main.py:3929-3940 | in test mode every message goes to the test address, which is usable |
| EmailApp.LiveModeReachesRecipients | app/main.py:3929-3940 | in live mode every message goes to the usable address of an attempted record with its report, without a note |
| EmailApp.PickedReadsFlag | app/main.py:3566-3606 | the report of a record some selected pair picks reads the flag written |
| EmailApp.DeliveredHadRecord | app/main.py:3904-3912 | a delivered record had a text address, so its lookup found a record |
| EmailApp.LiveRunNotOfferedAgain | app/main.py:4128-4130 | after a live run no report of a delivered message is pending again |
| EmailApp.EmailTab.constructor | app/main.py:3418-3424 | the tab starts with the loaded data, not sending and no tracker calls |
| EmailApp.EmailTab.MarkAsSentInCsv | app/main.py:3543-3563 | the frame becomes the frame with that record marked sent; nothing else changes |
| EmailApp.EmailTab.MarkSelectedAsSent | app/main.py:3566-3580 | the frame becomes the frame with every selected record marked sent; nothing else changes |
| EmailApp.EmailTab.MarkSelectedAsPending | app/main.py:3583-3606 | the frame becomes the frame with every selected record reset to pending; nothing else changes |
| EmailApp.EmailTab.ReportsReady | app/main.py:3444-3503 | the loop builds the list the status display shows |
| EmailApp.EmailTab.PendingRecords | app/main.py:3780-3831 | the loop builds the reports not read as sent |
| EmailApp.EmailTab.StartEmailAll | app/main.py:3621-3720 | the outcome is the decision of the checks; the tab is sending afterwards iff it was or sending started |
| EmailApp.EmailTab.SendEmails | app/main.py:3754-4175 | with pending records and an SMTP port that int() rejects it raises before any message and changes nothing, so the tab stays in its sending state; otherwise the counts, messages and tracker calls are those of the pending records attempted, in live mode every delivered record is marked sent, in test mode the frame is unchanged, and the tab stops sending |
| EmailApp.EmailTab.SendLoop | app/main.py:3876-4175 | the loop and its finalisation give the outcomes of the attempted records |
| EmailApp.EmailTab.SendOne | app/main.py:3876-4153 | one pass extends the counts, messages, tracker calls and marks by one record |
| EmailApp.EmailTab.RecordOutcome | app/main.py:4128-4153 | a tracker call is recorded; a delivered live record is marked sent |
| EmailApp.RunStep | app/main.py:4128-4153 | one more record adds to the counters, messages and calls accordingly |
| EmailApp.DeliveredStep | app/main.py:4128-4130 | one more delivered message keeps the messages usable and marks its record after the earlier ones |
| EmailApp.PairsSnoc | app/main.py:4130 | one more message adds its pair |

## Left out

- Tkinter: widgets, message boxes, tree views and `root.after` scheduling are not modelled. Each confirmation or selection the user makes is a boolean or a sequence given as a parameter.
- Threads: the worker threads and the flags they share are left out. A cancellation or stop request is a sequential input, the index of the record at which the request is seen. For a cancel while quarto runs, the three places where the batch worker can see it (between output lines, on the cleared process handle at wait(), after wait()) are the three cancel results of `Batch.Render`; which one occurs is an input, not a schedule.
- Subprocesses: Quarto and Rscript runs, the streaming of their output lines, and kill and wait are left out. Each render is an abstract outcome: exit code, temporary file produced, cancelled. The batch path starts Quarto without a timeout, so its timeout handler is unreachable and is not modelled.
- R package check: the check for R packages is a boolean input.
- Network and mail: Outlook COM, `smtplib` and the GitHub request are left out. Each delivery is a success-or-failure input. The update request is a `Response` value.
- Dead SMTP branch: the direct-SMTP branch of the GUI's send loop cannot run, because Outlook is always tried first, so it is not modelled.
- PDF reading: PyPDF2 text extraction is left out. The values read from a PDF are `Option<real>` inputs. Of the regular expressions, only the priority order of the score patterns and the file-name parses are modelled.
- File I/O: pandas CSV and Excel reading and writing, JSON and YAML files, backups and log files are left out. A read or write that can fail is a boolean or `Option` input. Saving a CSV and loading it back is taken as the identity.
- Header names: column names are assumed to be already lower-cased and stripped where the source does that on load.
- Globbing: `glob` is the folder's list of names filtered in listing order, and a file's modification time is an integer. The folder path prefix, and Windows' case-insensitive matching, are not modelled.
- `fnmatch`: character ranges and negation in `[...]` sets are modelled. Escape handling beyond `glob.escape` is not.
- Path resolution: `_asset_root`, `_data_root`, frozen-application paths and environment variables are not modelled.
- Floating point: numbers are Dafny `real`, so rounding error is not modelled. `round(x, 2)` is not modelled, and expected values are the exact means. Python `float()` is modelled for decimal literals only: exponents, `inf`, `nan` and digit separators are rejected by the model.
- `str()` of a number: the decimal text of a float is not modelled. A number cell renders as a fixed placeholder without spaces or '@'.
- Unicode: `str.lower()`, `str.strip()` and `isalnum()` are modelled on ASCII only.
- Randomness: the random sample of the integrity check is a parameter, a sequence of distinct indices.
- Templates: `str.format` templating of the GUI's subject and body is not modelled. A message carries its recipient, its record, its attachment and its test-mode note.
- Tracker: `email_tracker.py` is a stub. Its statistics always report zero pending, which `EmailApp.StubTrackerNeverStarts` states. Its calls are modelled as a log of `mark_sent` and `mark_failed` events. The stub has no `mark_failed` method; the error that calling it would raise is not modelled.
- Harnesses: gui_system_check.py, dependency_manager.py and validate_all_features.py are not part of this model: they have no logic of their own to state. The tests under tests/ are evidence only.
- EmailApp.ReportOf: the `.str` accessor at app/main.py:3472-3473 raises AttributeError when the company_name or name column holds no text at all; the listing loop's try/except then leaves the file out, but the model still lists it, since cells are not typed per column.
- CleaningEnhanced.CleanScoreText: `str()` of a float in exponent form ("1e-05") loses its "e" in the cleaning and becomes missing; the model has no exponent form, because number texts are not modelled.
- Integrity.SampleSize: a negative `num_samples` makes `random.sample` raise ValueError; the count is a `nat`, so that error is not modelled.
- Background update check: the thread and callback of `start_background_check` are not modelled.

## Findings

Nothing in this table was executed. Each row rests on the model's lemmas only.

| source | as written | input that shows it | evidently intended | confidence | as-written member | corrected member |
|---|---|---|---|---|---|---|
| validate_reports_detailed.py:299,305 | the lazy group `(.+?)\s*-` stops at the first hyphen of the parenthesised text | a report for company "Coca-Cola" is read as company "Coca" and matches no CSV row | the company is the text before the last " - ", as the other two parsers read it | not executed; high | FilenameParse.DetailedCompany, FilenameParse.CocaColaIsReadAsCoca | FilenameParse.DetailedCompanyFixed, FilenameParse.DetailedCompanyFixedOfReportName |
| generate_all_reports.py:86 | the person column is the first column whose name contains "name" | columns ["company_name", "name", …]: the person column is "company_name" | the person column is never the company column | not executed; high | ReportScript.PersonColumnAsWritten, ReportScript.PersonColumnCanBeCompanyColumn | ReportScript.PersonColumn, ReportScript.PersonColumnIsNotCompanyColumn |
| validate_reports_detailed.py:436 | the match rate divides by the number of checked values | no PDF whose company is found in the CSV: the division by zero raises | a match rate of 0 when nothing was checked | not executed; high | DetailedValidation.MatchRateAsWritten, DetailedValidation.SummaryAsWritten, DetailedValidation.NoValidatedCompanyCrashes | DetailedValidation.MatchRate, DetailedValidation.SummaryOf, DetailedValidation.MatchRateAgrees, DetailedValidation.SummaryAsWrittenIsSummaryOf |
| clean_data_enhanced.py:236-264 | every value that fails the score format is logged as set to missing | "4,5" is logged as set to missing but kept as 4.5; "45" is logged but kept as 5.0 | only values that the cleaning really sets to missing are logged as such | not executed; high | CleaningEnhanced.LoggedAsSetToMissing, CleaningEnhanced.CommaScoreLoggedButKept | CleaningEnhanced.SetToMissing, CleaningEnhanced.SetToMissingIsLogged |
| convert_data.py:136-152 | `df.insert(1, "reportsent", False)` needs at least one column | a sheet with a header row and no data rows: every column is dropped as blank, and the insertion raises out of `convert_and_save` | convert_and_save returns True or False | not executed; medium | Convert.ConversionAsWritten, Convert.HeaderOnlySheetRaises | Convert.ConversionOf, Convert.ConversionHasReportSent, Convert.AsWrittenAgrees |
| app/main.py:2802 | after the output loop the worker calls `self._gen_proc.wait()`, while `cancel_generation` may already have set the handle to None | a cancel on the last record whose quarto output ends after the handle was cleared: the AttributeError is counted as a failure, processed equals total and GENERATION COMPLETE is logged | wait on a local copy of the handle, as the between-lines branch does, so the cancel stops the run and is reported as incomplete | not executed; medium | Batch.AppOutcome, Batch.CancelAtEofReportedComplete | Batch.Guarded, Batch.StoppedIffIncomplete, Batch.GuardedRunReportsCancel |
| send_email.py:71-72 | the display names go into the `glob` pattern unescaped | company "Acme [EU]" whose only report has an earlier date: "[EU]" matches one character, so the report is not found and the record is skipped | the pattern matches the names literally (`glob.escape`) | not executed; high | EmailScript.FindDisplayed, EmailScript.BracketedNameMissesItsReport, EmailScript.BracketedCompanyIsSkipped | EmailScript.FindDisplayedFixed, EmailScript.FixedFindsAnyDate, EmailScript.FixedFindsOnlyTheRecord |
