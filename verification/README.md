# HTX in Dafny: equaliser, ECG manager, command path, miscompare display

HTX loads a machine by starting many exercisers, one per device or hardware thread. This project
models the parts of it that decide what runs when, and proves what they promise.

- The **equaliser** gives each exerciser a share of the time. A utilisation string becomes a 32-bit
  schedule word, the word is replayed top bit first, one bit per quantum, and SIGSTOP and SIGCONT
  follow the bits. `Words`, `Shuffle`, `Utilization`, `Schedule`, `CpuBinding`, `Equaliser`.
- **create_eq_cfg** draws the utilisation sequences and prints them, **create_eq_mdt** reads them.
  `CText`, `EqCfgLine`, `Resources`, `Stanzas`, `ThreadSequences`, `MaxPower`, `CoreThreads`.
  `Pipeline` and `PowerRamp` join all three programs, from the drawn numbers and schedules over the
  printed lines to the running cores.
- The **ECG manager** keeps a doubly linked list of loaded ECGs, allocates their IPC keys, and keeps
  an index by device name over their shared memory. `EcgKeys`, `EcgList`, `ExerTable`.
- The **command path** frames commands and responses over a byte stream and maps device lists with
  wildcards onto semaphores. `Wire`, `Devices`.
- **bufdisp** walks through groups of miscompares, and **nx_corsa.h** packs 4-bit type fields.
  `Miscompares`, `AtsTypes`.

`dafny verify dfyconfig.toml` checks the whole project.

Random numbers, stream behaviour, signal delivery and eligibility of an exerciser are parameters, so
every statement holds for all of them. In-place code is a class or works on an array; its methods are
specified by functions on values, and the lemmas are about those functions.

Where the code does not keep a promise, the exact condition under which it does is proved:

- a literal schedule can be told from others after reading exactly up to 32 characters, while the
  generator writes up to 64 (`Utilization.LiteralsKeptApartIff`);
- IPC keys stay distinct throughout a history exactly when there is room at every load, that is when
  the key offset is below its limit or the key at the limit is free; 501 loads always have room, the
  502nd can already get a key in use, and the limit is never reported
  (`EcgKeys.KeysStayDistinctIff`, `EcgKeys.EnoughRoom`, `EcgKeys.KeysRunOut`);
- a load that fails leaves the list length counter one too low; removal then takes out one node
  exactly if the counter is not 1 or there is one node, and the whole list can be shut down exactly if
  it is empty or the counter is right (`EcgKeys.CounterRightIff`, `EcgKeys.RemovesOneIff`,
  `EcgKeys.DrainsIff`, histories in `EcgKeys.FailedLoadHistories`);
- the exer table lists exactly the running ECGs if and only if those that were shut down since the
  daemon was idle had no device of their own; it keeps the entries of the others, and loading such an
  ECG again loads no device (`ExerTable.ListsRunningEcgsIff`, `ExerTable.ShutdownLeavesEntries`);
- every device is bound to its own CPU, except for mem devices on POWER9 and later, which are numbered
  one after the other (`CpuBinding.StanzaBindsItsCpuIff`);
- a command arrives whole exactly if its ECG name has no colon (`Wire.CommandRoundTripIff`), and a
  response exactly if its return code fits ten characters (`Wire.ResponseRoundTripIff`);
- command `s` of bufdisp announces that a range below 1 is reset to 24 but stores it; with a negative
  range the tour of the groups is complete exactly if there is at most one miscompare
  (`Miscompares.TourIsCompleteIff`, and for the commands themselves `Miscompares.BufDisp.VisitGroups`).

## Model

| member | source | states |
|---|---|---|
| Shuffle.ShufflePattern | bin/htxd/htxd_equaliser.c:179-195 | the masking loop computes the Fisher-Yates shuffle of the low n bits; number of ones and all bits from n up are kept, for all random numbers |
| Shuffle.MaskedExchange | bin/htxd/htxd_equaliser.c:188-192 | the five mask expressions trade two bits of the word and leave the others |
| Shuffle.ShuffleKeeps | bin/htxd/htxd_equaliser.c:186-193 | from any position on, whatever is drawn, the shuffle keeps the ones inside the range and every bit outside |
| Shuffle.ShuffleReachesExactlyTheArrangements | bin/htxd/htxd_equaliser.c:179-195 | some draws lead from one word to another if and only if they differ only in the order of the low n bits |
| Shuffle.ShufflePlacesTheDrawn | bin/htxd/htxd_equaliser.c:186-193 | the position drawn first is where the first bit of the result comes from, and the rest is the shuffle of what is left |
| Schedule.FreshPattern | bin/htxd/htxd_equaliser.c:217-242 | a rebuilt schedule has exactly the quota of ones in LEFT, RIGHT and RANDOM mode |
| Schedule.QuotaIsFloor | bin/htxd/htxd_equaliser.c:217 | the quota is the number of whole visits in that percentage of the length: 100 times it is at most percentage * length and less than 100 short of it |
| Schedule.RandomRebuildReaches | bin/htxd/htxd_equaliser.c:233-240 | in RANDOM mode some draws rebuild the schedule to a given word if and only if the word has the quota of ones within the length and none beyond |
| Schedule.RandomStartReaches | bin/htxd/htxd_equaliser.c:286-300 | the same for the schedule an exerciser starts with |
| Schedule.RandomReplayReaches | bin/htxd/htxd_equaliser.c:516-525 | the same for the schedule that follows at the end of every replay, also with a single percentage |
| Schedule.Start | bin/htxd/htxd_equaliser.c:286-300 | a started exerciser shows its first percentage and stands at step 0 |
| Schedule.Next | bin/htxd/htxd_equaliser.c:446-528 | every visit keeps the run-time invariant: the word in place shows the percentage in force, also when the rebuild is skipped |
| Schedule.RunsStayOnCourse | bin/htxd/htxd_equaliser.c:453-525 | after any run the sequence step is the number of finished replays modulo the sequence length, and the run actions so far are the quotas of those replays plus the ones already shown |
| Schedule.PlaceOfVisit | bin/htxd/htxd_equaliser.c:516-518 | after any run the number of effective visits alone determines the step and the number of finished replays |
| Schedule.ReplaysMeetQuotas | bin/htxd/htxd_equaliser.c:453-525 | after m full replays the run actions are the sum of the m quotas, for generated and literal schedules |
| Schedule.DutyCycle | bin/htxd/htxd_equaliser.c:201-242 | over q passes of sequence_length * pattern_length effective visits an exerciser gets exactly q times the sum of the quotas, in every mode |
| Schedule.ShareOfTheTime | bin/htxd/htxd_equaliser.c:201-242 | over q passes the run actions are the written percentages of the time, short of them by less than one visit per replay, and exactly equal if and only if no percentage needs rounding |
| Schedule.EveryWindow | bin/htxd/htxd_equaliser.c:516-524 | with a literal schedule, or LEFT or RIGHT with one percentage, the share is exact over every window of m * length effective visits, wherever it begins |
| Schedule.ExactVisits | bin/htxd/htxd_equaliser.c:219-232 | in LEFT and RIGHT mode the visit number alone decides whether the exerciser runs, first or last quota visits of a replay |
| Schedule.LiteralVisits | bin/htxd/htxd_equaliser.c:453-517 | a literal schedule is replayed top bit first for ever |
| Schedule.SignalsAlternate | bin/htxd/htxd_equaliser.c:456-515 | over any run, with failed signals and skipped visits, delivered signals alternate Stop, Cont, Stop, ..., and the halt flag is up if and only if the last one was a Stop |
| Schedule.HaltFollowsSchedule | bin/htxd/htxd_equaliser.c:456-515 | after an effective visit the halt flag is the opposite of the schedule bit if and only if the signal got through or none was needed |
| Utilization.ReadPercentages | bin/htxd/htxd_equaliser.c:108-112 | the strtok loop yields the values between underscores, each modulo 65536 |
| Utilization.UtilizationRoundTrip | bin/htxd/htxd_equaliser.c:97-113 | MODE%a_b_c_ is read back as exactly that mode and that sequence, for any sequence of values below 65536 |
| Utilization.UtilizationStored | bin/htxd/htxd_equaliser.c:97-113 | for any values the mode is read back and each value modulo 65536 |
| Utilization.PercentageOfNegative | bin/htxd/htxd_equaliser.c:110 | a negative value wraps around to 65536 less its magnitude |
| Utilization.UnknownMode | bin/htxd/htxd_equaliser.c:97-107 | any other name before the percent sign leaves the mode open and still gives the sequence |
| Utilization.SingleRoundTrip | bin/create_eq_cfg/create_eq_cfg.c:289-297 | the one-value form MODE%p is read back as that mode and value |
| Utilization.StrToUlBits | bin/htxd/htxd_equaliser.c:115 | the number read from up to 64 binary digits has those digits, last digit lowest |
| Utilization.StrToUlValue | bin/htxd/htxd_equaliser.c:115 | strtoul returns the number that any string of binary digits writes, or the largest 64-bit number if that is less |
| Utilization.LiteralRead | bin/htxd/htxd_equaliser.c:114-117 | a literal keeps its whole length and the word has its last digits, last digit lowest |
| Utilization.LiteralReplay | bin/htxd/htxd_equaliser.c:114-117 | replayed from the top, a literal of up to 32 characters gives its characters from left to right |
| Utilization.OnlyLast32Count | bin/htxd/htxd_equaliser.c:115 | of a longer literal only the last 32 characters have an effect |
| Utilization.LiteralsKeptApartIff | bin/htxd/htxd_equaliser.c:114-117 | literals of n characters can be told apart after reading if and only if n is at most 32 |
| CpuBinding.BindCpuNumber | bin/htxd/htxd_equaliser.c:141-149 | the loop reads all digits of the device name as one number |
| CpuBinding.CpuNumberRoundTrip | bin/create_eq_mdt/create_eq_mdt.c:274 | a number appended to a name is read back if and only if the name has no nonzero digit |
| CpuBinding.SupportedKeepsNumber | bin/create_eq_mdt/create_eq_mdt.c:53-66 | for every supported kind of device, in any capitals, the number appended to the name is read back |
| CpuBinding.StanzaBindsItsCpuIff | bin/create_eq_mdt/create_eq_mdt.c:219-274 | a device is bound to the CPU it was defined on if and only if it is not a numbered mem device or its number happens to be that of the CPU |
| CpuBinding.BoundToMeaning | bin/htxd/htxd_equaliser.c:150-165 | a device is recorded on a CPU if and only if its name carries that CPU's number, once and in device order |
| CpuBinding.RecordedOnce | bin/htxd/htxd_equaliser.c:150-165 | with distinct CPU numbers no device is recorded in two slots |
| Equaliser.Equaliser.UpdateConfigDetail | bin/htxd/htxd_equaliser.c:84-120 | stores what the utilisation string says in that exerciser's record and in no other; an unknown mode name leaves the mode |
| Equaliser.Equaliser.RecordExer | bin/htxd/htxd_equaliser.c:140-165 | appends the exerciser to every CPU of its number and configures it if there is one |
| Equaliser.Equaliser.UpdateExerInfo | bin/htxd/htxd_equaliser.c:122-167 | every CPU's slots list exactly the exercisers named after it; the others keep their records |
| Equaliser.Equaliser.ResetUtilizationQueue | bin/htxd/htxd_equaliser.c:201-242 | the bit-setting loops leave the schedule of the mode in that record and change nothing else |
| Equaliser.Equaliser.SendSignal | bin/htxd/htxd_equaliser.c:453-515 | sends the signal the schedule bit and the halt flag call for and moves the flag only if it was delivered |
| Equaliser.Equaliser.VisitExer | bin/htxd/htxd_equaliser.c:445-528 | one visit is one step of the exerciser's schedule, in place |
| Equaliser.Equaliser.InitializeRunTimeData | bin/htxd/htxd_equaliser.c:260-306 | starts every recorded exerciser once and touches no other |
| Equaliser.Equaliser.Quantum | bin/htxd/htxd_equaliser.c:435-534 | a quantum visits every recorded exerciser exactly once and no other, and sends each the signal of its own visit |
| Equaliser.Equaliser.RunQuanta | bin/htxd/htxd_equaliser.c:425-537 | after any number of quanta each exerciser is where the run of its own visits leads, and has got exactly the signals of that run, independently of the others |
| Equaliser.Equaliser.Equalise | bin/htxd/htxd_equaliser.c:402-537 | from names and utilisation strings to state and delivered signals after any history, for every exerciser whose CPU exists; the signals of every exerciser not halted at first alternate Stop, Cont, ... and it is halted if and only if the last was a Stop |
| EqCfgLine.ReadDeviceLine | bin/create_eq_mdt/create_eq_mdt.c:126-176 | the loops over lines, devices and fields compute the reading that the members below are about |
| EqCfgLine.LineRoundTrip | bin/create_eq_cfg/create_eq_cfg.c:554 | a line of any number of devices is read back with the same resource, names, rule files, delays, run times and utilisation strings |
| EqCfgLine.EntriesLine | bin/create_eq_mdt/create_eq_mdt.c:149-175 | a line of devices and sleep entries in any order is read back entry by entry; sleep takes its place and defines no device |
| EqCfgLine.SleepInCapitals | bin/create_eq_mdt/create_eq_mdt.c:159-161 | sleep is recognised whatever its capitals |
| EqCfgLine.SkippedLines | bin/create_eq_mdt/create_eq_mdt.c:378-389 | comments, blank lines and lines without a word are skipped, whatever blanks are in front |
| EqCfgLine.KeywordLines | bin/create_eq_mdt/create_eq_mdt.c:140-147 | lines that begin with one of the five keywords are skipped |
| EqCfgLine.ImproperLine | bin/create_eq_mdt/create_eq_mdt.c:164-169 | an entry that cannot be read makes the line improper, wherever it stands in it |
| EqCfgLine.ShortEntry | bin/create_eq_mdt/create_eq_mdt.c:164-169 | an entry with fewer than four fields cannot be read |
| EqCfgLine.LineForm | bin/create_eq_cfg/create_eq_cfg.c:554 | the exact text of a line with one device |
| EqCfgLine.EntryRoundTrip | bin/create_eq_mdt/create_eq_mdt.c:158-173 | name[rule:delay:runtime:utilisation] is taken apart into these five |
| CText.TokensOfJoin | bin/create_eq_mdt/create_eq_mdt.c:152-165 | strtok splitting undoes joining with separators |
| CText.SkipDelimsOfConcat | bin/create_eq_mdt/create_eq_mdt.c:382-384 | all delimiters in front are skipped, and nothing else |
| CText.AtoiOfPrintInt | bin/create_eq_mdt/create_eq_mdt.c:171-172 | a printed integer is read back, negative ones included |
| CText.AtoiOfUnsigned | bin/htxd/htxd_equaliser.c:110 | blanks in front and everything from the first other character on do not count |
| CText.AtoiOfSigned | bin/htxd/htxd_equaliser.c:110 | nor does a plus sign; a minus sign does, and a sign without digits is 0 |
| ThreadSequences.SwitchingForEver | bin/create_eq_cfg/create_eq_cfg.c:450-488 | for any number of draws the current count and the array together are the SMT values of the core, and consecutive columns have different counts |
| ThreadSequences.SwitchKeepsAll | bin/create_eq_cfg/create_eq_cfg.c:480-488 | one draw keeps the multiset of counts and changes the current one |
| ThreadSequences.SwitchingReachesExactlyTheCourses | bin/create_eq_cfg/create_eq_cfg.c:480-488 | the counts of the columns can be any sequence of SMT values from the full level on in which no two neighbours are equal, and no other |
| ThreadSequences.HalvingsMeaning | bin/create_eq_cfg/create_eq_cfg.c:450-454 | SMT value k is the level divided by 2 to the power k + 1, rounded down, and the last one is 1 |
| ThreadSequences.PickOne | bin/create_eq_cfg/create_eq_cfg.c:494-499 | returns the drawn entry and closes the gap, keeping the order of the rest |
| ThreadSequences.DrawThreads | bin/create_eq_cfg/create_eq_cfg.c:584-595 | drawing without replacement picks exactly the threads the random numbers say, in that order, and leaves the rest in order; together they are all threads, none twice |
| ThreadSequences.DrawsReachExactlyTheLists | bin/create_eq_cfg/create_eq_cfg.c:494-499 | some draws pick a given list of threads if and only if they are threads of the core and none comes twice |
| ThreadSequences.FewerAreTheFirst | bin/create_eq_cfg/create_eq_cfg.c:494-499 | with the same random numbers, drawing fewer threads draws the first of those drawn |
| ThreadSequences.ChosenAndRemaining | bin/create_eq_cfg/create_eq_cfg.c:494-503 | picked and remaining threads together are all threads, none twice |
| ThreadSequences.ActiveCountOfRest | bin/create_eq_cfg/create_eq_cfg.c:490-500 | a column that is 0 exactly on the threads not drawn has all the others active |
| ThreadSequences.Matrix.SmtArray | bin/create_eq_cfg/create_eq_cfg.c:450-454 | the array of SMT values is the successive halvings of the SMT level |
| ThreadSequences.Matrix.SwitchColumn | bin/create_eq_cfg/create_eq_cfg.c:469-504 | exactly the threads drawn are 100, as many as given, and the others 0; other columns and all earlier text stay |
| ThreadSequences.Matrix.CreateThSwitchSeq | bin/create_eq_cfg/create_eq_cfg.c:442-505 | every column has exactly the drawn threads, as many as the count drawn for it, at 100 and the rest at 0, and each row's text is its ten percentages |
| ThreadSequences.Matrix.RemovalColumn | bin/create_eq_cfg/create_eq_cfg.c:628-653 | exactly the threads drawn from the removal class are 0, as many as given; all others are 100 |
| ThreadSequences.Matrix.MixSwitchColumn | bin/create_eq_cfg/create_eq_cfg.c:662-695 | exactly the threads drawn, as many as the chosen number, are 100, the others 0 |
| ThreadSequences.Matrix.DrawSmtValue | bin/create_eq_cfg/create_eq_cfg.c:656-669 | the count is the SMT value below the level that the draw says |
| ThreadSequences.MixCountReaches | bin/create_eq_cfg/create_eq_cfg.c:668 | every SMT value below the level comes up for some draw |
| ThreadSequences.PassIsDrawn | bin/create_eq_cfg/create_eq_cfg.c:610-695 | every choice of removed threads of one permitted workload, SMT value and threads to run on it is drawn in a pass by some random numbers |
| ThreadSequences.PassDrawIsPass | bin/create_eq_cfg/create_eq_cfg.c:610-695 | whatever is drawn, the removed threads are as many as asked for and of one permitted workload, and as many distinct threads run as the SMT value says |
| ThreadSequences.PassesAreDrawn | bin/create_eq_cfg/create_eq_cfg.c:606-695 | every sequence of such passes is drawn by some random numbers, with any draws for the two workloads |
| ThreadSequences.Matrix.CreateThMixSeq | bin/create_eq_cfg/create_eq_cfg.c:568-696 | the two workloads are the threads drawn and the rest; in each pass column one is all 100, column two stops exactly the threads drawn, threads_to_remove of one permitted workload, column three has exactly the threads drawn active, as many as the SMT value drawn |
| MaxPower.CreatePattern | bin/create_eq_cfg/create_eq_cfg.c:300-335 | row i is '1' exactly on columns i..i+n-1 of 2n, and terminated |
| MaxPower.OneMoverPerStep | bin/create_eq_cfg/create_eq_cfg.c:312-327 | every step, the wrap included, turns exactly one schedule on or off |
| MaxPower.StaircaseHeight | bin/create_eq_cfg/create_eq_cfg.c:312-327 | column j has min(j + 1, 2n - 1 - j) schedules on |
| MaxPower.RampByOneGroup | bin/create_eq_cfg/create_eq_cfg.c:337-343 | the sum of the sizes of the groups that are on rises or falls by exactly one group per step |
| MaxPower.CoresOnOfBlocks | bin/create_eq_cfg/create_eq_cfg.c:401-439 | among the cores in the order they are emitted, those whose schedule is on are as many as the sizes of the groups that are on add up to |
| MaxPower.RampOfCores | bin/create_eq_cfg/create_eq_cfg.c:337-343 | the number of emitted cores whose schedule is on rises or falls by exactly the size of one group per step, the wrap included |
| MaxPower.CoresPerSet | bin/create_eq_cfg/create_eq_cfg.c:369-378 | group sizes add up to the number of cores and differ by at most one, larger ones first |
| MaxPower.EmitCores | bin/create_eq_cfg/create_eq_cfg.c:401-439 | cores are given to groups in order, each group getting exactly its size, and only schedules that exist are used |
| MaxPower.BlocksCount | bin/create_eq_cfg/create_eq_cfg.c:429-436 | in that order group p occurs exactly sizes[p] times |
| CoreThreads.SplitThreads | bin/create_eq_cfg/create_eq_cfg.c:269-288 | fpu, cpu and mem threads add up to the SMT level, half of them fpu, cpu and mem equal up to one |
| CoreThreads.AllCoresLines | bin/create_eq_cfg/create_eq_cfg.c:269-298 | the three print loops give line k to thread k; read back, the lines name each of the threads 0..smt-1 exactly once and no other, and exactly the first threads get fpu, the next cpu and the last mem, each with its rule file and half of the time |
| CoreThreads.HalfIsRead | bin/create_eq_cfg/create_eq_cfg.c:289-297 | the equaliser reads the utilisation of these lines as LEFT with 50 percent |
| CoreThreads.CoreLines | bin/create_eq_cfg/create_eq_cfg.c:405-428 | the up to three lines of a core, with single threads and ranges; read back, they name each of its threads exactly once and no other, and exactly the first threads get fpu, the next cpu and the last mem, each with its rule file and the schedule |
| CoreThreads.LinesPartition | lib/htx64/htxsyscfg.c:3796-3860 | lines printed for parts that tile the threads of a core are a partition of these threads, once read |
| CoreThreads.PartLineRoundTrip | bin/create_eq_cfg/create_eq_cfg.c:411-428 | a line for some threads is read as its resource and its device |
| Resources.ListedRoundTrip | lib/htx64/htxsyscfg.c:3796-3860 | the thread field T3 or T[0-3] is read as exactly the threads it was printed for, in order |
| Resources.FieldRoundTrip | lib/htx64/htxsyscfg.c:3796-3860 | a thread is in a field if and only if the field was printed for it |
| Resources.ListOfMany | lib/htx64/htxsyscfg.c:3796-3860 | a list of numbers and ranges names exactly the threads of its elements |
| Resources.HalfRange | lib/htx64/htxsyscfg.c:3840-3845 | a range without its end names no thread |
| Resources.FieldWithoutBrackets | lib/htx64/htxsyscfg.c:3893-3895 | without brackets a field names the one thread it begins with, whatever follows |
| Resources.LevelsRoundTrip | lib/htx64/htxsyscfg.c:3412-3416 | a resource is taken apart into its node, chip, core and thread |
| Pipeline.TextDutyCycle | bin/htxd/htxd_equaliser.c:84-120 | the duty cycle of an exerciser configured from its utilisation string, in every mode: the sum of the quotas, and of the written percentages short by less than one visit per replay |
| Pipeline.TextVisits | bin/htxd/htxd_equaliser.c:97-106 | with UTIL_LEFT% the exerciser runs on the first quota visits of each replay, with UTIL_RIGHT% on the last, from the text on |
| Pipeline.TextRandom | bin/htxd/htxd_equaliser.c:101-104 | with UTIL_RANDOM% any schedule with the quota of ones, and no other, can follow from some draws, from the text on |
| Pipeline.TextLiteral | bin/htxd/htxd_equaliser.c:114-117 | a literal text is replayed character by character from the left, for ever |
| Pipeline.TextUnknownMode | bin/htxd/htxd_equaliser.c:97-113 | a text with an unknown mode name runs in the mode the record had before |
| Pipeline.StaircaseReplay | bin/create_eq_cfg/create_eq_cfg.c:300-335 | replayed by the equaliser with 2n up to 32, schedule i is on at effective visit t if and only if column t mod 2n says so |
| Pipeline.RowSurvivesTheTrip | bin/create_eq_cfg/create_eq_cfg.c:553-555 | a thread's printed line is read by create_eq_mdt and then by the equaliser as exactly its row of percentages |
| Pipeline.ThreadDeviceForm | bin/create_eq_cfg/create_eq_cfg.c:554 | the exact text printed for the device of one thread |
| Pipeline.SwitchLines | bin/create_eq_cfg/create_eq_cfg.c:546-555 | the lines of a core carry the rows of a drawn matrix, one per thread |
| Pipeline.ThreadFollowsRow | bin/htxd/htxd_equaliser.c:453-525 | a thread with 0 and 100 only is on or off for a whole replay, as its row says |
| Pipeline.MixLines | bin/create_eq_cfg/create_eq_cfg.c:801-806 | the lines of a core carry the rows of a mixed matrix, one per thread |
| Stanzas.ReadCore | bin/create_eq_mdt/create_eq_mdt.c:219-278 | the lines of a core, ranges included, are read as one device per thread, bound to the logical CPU of that thread and with the utilisation of its line |
| Pipeline.RunSwitchedCore | bin/create_eq_cfg/create_eq_cfg.c:522-555 | the lines carry the rows of a drawn matrix, the devices read from them are bound to the CPUs of their threads, and the exercisers are where any history leads them from these devices, among any others; once every thread of the core has had n effective visits, exactly the threads drawn for step n / length are told to run, as many as the SMT value drawn for it |
| Pipeline.RunMixedCore | bin/create_eq_cfg/create_eq_cfg.c:714-806 | the same for a mixed matrix: at the first step of a pass all exercisers of the core are told to run, at the second all but exactly the threads drawn for removal, which are of one permitted workload, at the third exactly the threads drawn for the SMT value drawn |
| PowerRamp.RunRamp | bin/create_eq_cfg/create_eq_cfg.c:344-439 | the lines of every core carry the schedule of its group, each device read from them is bound to the CPU of its own thread, and the exercisers are where any history leads them, among any others; once every thread has had t effective visits, each core is told to run or to sleep as a whole, and the number of cores told to run is the height of column t mod 2n, for up to 16 cores |
| PowerRamp.PlacesMeaning | bin/create_eq_cfg/create_eq_cfg.c:401-405 | the cores are exactly those of the machine, in order of node, chip and core |
| PowerRamp.DeviceOfThread | bin/create_eq_mdt/create_eq_mdt.c:256-278 | device c * smt + k is that of thread k of core c, and what it is told is entry k of core c |
| PowerRamp.RampHeight | bin/create_eq_cfg/create_eq_cfg.c:369-439 | with fewer than 32 cores the number of emitted cores that are on in column j is min(j + 1, 2n - 1 - j) |
| EcgKeys.Walk | bin/htxd/htxd_ecg.c:895-924 | the offset only moves up and never beyond the limit, so the failure value is never returned |
| EcgKeys.NewKeyIsFreshIff | bin/htxd/htxd_ecg.c:1087-1090 | whatever key the new node held, its new key is in use by no other if and only if the offset was below the limit or the key at the limit is free |
| EcgKeys.ApplyKeepsDistinctIff | bin/htxd/htxd_ecg.c:1071-1090 | an operation on distinct keys leaves them distinct if and only if it is not an addition without room |
| EcgKeys.KeysStayDistinctIff | bin/htxd/htxd_ecg.c:895-924 | keys are pairwise distinct throughout a history of additions, failed ones included, and removals if and only if there was room at every addition |
| EcgKeys.EnoughRoom | bin/htxd/htxd_ecg.c:906-917 | up to 501 additions always have room |
| EcgKeys.KeysRunOut | bin/htxd/htxd_ecg.c:895-924 | with cleared memory the 1002nd load in a row gets a key in use, and with the worst of uninitialised keys the 502nd |
| EcgKeys.CounterCountsSuccesses | bin/htxd/htxd_ecg.c:1123 | if every load succeeds the counter is the length of the list |
| EcgKeys.CounterRightIff | bin/htxd/htxd_ecg.c:322-341 | from a right counter, an operation keeps it right if and only if it is not a failed load, and removal takes out exactly the one node |
| EcgKeys.RemovesOneIff | bin/htxd/htxd_ecg.c:327-341 | removal takes out exactly one node if and only if the counter is not 1 or the list has one node |
| EcgKeys.FailedLoadHistories | bin/htxd/htxd_ecg.c:327-334 | a load that succeeds, one that fails and a removal leave an empty list of what was two nodes; after a single failed load its node cannot be removed |
| EcgKeys.DrainsIff | bin/htxd/htxd_option_method_shutdown_mdt.c:259-292 | removing heads is defined all the way and takes one node at a time if and only if the list is empty or the counter is right |
| EcgKeys.SuccessfulLoadsDrain | bin/htxd/htxd_ecg.c:322-341 | after any history of successful loads and removals any node can be removed and the whole list shut down |
| EcgList.EcgManager.AllocateEcgInfo | bin/htxd/htxd_ecg.c:267-296 | the new node is at the end, links are inverse of each other, all other nodes and both their keys stay |
| EcgList.EcgManager.GetNextKeyOffset | bin/htxd/htxd_ecg.c:895-924 | the nested loops end and compute the walk along the list |
| EcgList.EcgManager.InitEcgInfo | bin/htxd/htxd_ecg.c:1055-1128 | adds one node with both keys from one offset, moves the counter only on success, keeps links, key bound and the pairing of the keys of every node |
| EcgList.EcgManager.SemKeysDistinctIff | bin/htxd/htxd_ecg.c:1089-1090 | with both keys of every node from one offset, semaphore keys are distinct if and only if shared-memory keys are |
| EcgList.EcgManager.Manage | bin/htxd/htxd_ecg.c:1055-1128 | over any history of loads and removals the list in place goes through exactly the states of the history; with room at every load shared-memory keys and semaphore keys are all distinct |
| EcgList.EcgManager.RemoveEcgInfoNode | bin/htxd/htxd_ecg.c:322-341 | head, middle, tail or only node: exactly that node goes and the order of the others stays, or the whole list if the counter is 1 |
| EcgList.EcgManager.ShutdownAllMdt | bin/htxd/htxd_option_method_shutdown_mdt.c:259-292 | removing heads through the removed node's own link empties the list and takes its length off the counter |
| ExerTable.UnseenMeaning | bin/htxd/htxd_ecg.c:873-880 | loaded are exactly the names not in the table, each once, in the order of their first occurrence |
| ExerTable.Table.PositionByName | bin/htxd/htxd_ecg.c:1154-1170 | the first entry of that name, or -1 if and only if there is none |
| ExerTable.Table.DeviceDupStatus | bin/htxd/htxd_ecg.c:360-373 | not found, terminated or found, by presence and process id |
| ExerTable.Table.UpdateExerTable | bin/htxd/htxd_ecg.c:696-719 | appends an entry for a new name, overwrites that of a known one |
| ExerTable.Table.UpdateExerPid | bin/htxd/htxd_ecg.c:1175-1191 | sets the process id of the named device and changes nothing else |
| ExerTable.Table.SetShmExercisersValues | bin/htxd/htxd_ecg.c:847-890 | for any table with distinct names and any stanzas: HE array and table both gain exactly the new names, in order, with matching position and address; names stay distinct |
| ExerTable.Table.DevicePositionInShm | bin/htxd/htxd_ecg.c:724-741 | the first HE of that name, or -1 if and only if there is none |
| ExerTable.Table.Serve | bin/htxd/htxd_option_method_shutdown_mdt.c:215-240 | after any run of loads and shutdowns, with process ids set between them, the table lists exactly the devices of all ECGs loaded since the daemon was idle, under distinct names |
| ExerTable.IdleLeavesNothing | bin/htxd/htxd_option_method_shutdown_mdt.c:231-234 | after any run in which every ECG that was loaded is shut down again, nothing is left |
| ExerTable.BusyKeepsAll | bin/htxd/htxd_option_method_shutdown_mdt.c:231-234 | as long as another ECG runs, a shutdown deletes nothing |
| ExerTable.LiveIffNotShut | bin/htxd/htxd_option_method_shutdown_mdt.c:215-234 | after any run there is one record for each load since the daemon was idle, and its ECG runs if and only if it has not been shut down since its load |
| ExerTable.IdleLoadsAll | bin/htxd/htxd_daemon.c:252-266 | once every ECG is shut down a load takes all of its stanzas, whatever was loaded before |
| ExerTable.LoadAgain | bin/htxd/htxd_daemon.c:252-266 | an ECG that is loaded, shut down and loaded again has its device |
| ExerTable.ListsRunningEcgsIff | bin/htxd/htxd_option_method_shutdown_mdt.c:215-240 | it lists exactly the running ECGs if and only if those that were shut down had no device of their own |
| ExerTable.LoadsNothingIff | bin/htxd/htxd_ecg.c:431-440 | a load finds no device to load if and only if all its names are known from ECGs loaded before, running or not |
| ExerTable.ShutdownLeavesEntries | bin/htxd/htxd_option_method_shutdown_mdt.c:215-240 | after two loads and a shutdown of the first the table leads to devices that are gone, and loading the first again loads no device |
| ExerTable.LoadedNames | bin/htxd/htxd_ecg.c:866-880 | after any run a name is in some HE array if and only if some load since the daemon was idle had a stanza of it, and no name is there twice |
| ExerTable.LookupFindsDevice | bin/htxd/htxd_ecg.c:724-741 | for any device of any loaded ECG the table gives the ECG, position and address at which a scan of the HE array finds it |
| Devices.ExpandDeviceNameList | bin/htxd/htxd_option_method_misc.c:53-84 | the rewritten list has the device names matching each wildcard, in order, and the other words as they were |
| Devices.WordsOfList | bin/htxd/htxd_option_method_misc.c:581-597 | the words finally looked up name exactly the devices the list selects, by name or trailing-* prefix |
| Devices.WildcardMeaning | bin/htxd/htxd_option_method_misc.c:66-74 | p* matches a name if and only if the name is p with something or nothing after it, and * matches every name |
| Devices.MatchingInOrder | bin/htxd/htxd_option_method_misc.c:69-75 | the names a wildcard stands for come in device order |
| Devices.Ecg.constructor | bin/htxd/htxd_ipc.c:157-179 | exactly three semaphores per device, those in reserve included, after six global ones, all 0 |
| Devices.Ecg.SuspendDevice | bin/htxd/htxd_option_method_misc.c:688-715 | sets the run semaphores of exactly the selected devices to 1 |
| Devices.Ecg.ActivateDevice | bin/htxd/htxd_option_method_misc.c:574-601 | sets the run semaphores of exactly the selected devices to 0 |
| Devices.Ecg.SetAllDevices | bin/htxd/htxd_option_method_misc.c:605-616 | does what the list "*" does, for suspend and activate |
| Devices.OnlySelectedRunsChange | bin/htxd/htxd_ipc.c:293-310 | no global, error or other device's semaphore changes |
| Devices.ActivateUndoesSuspendIff | bin/htxd/htxd_option_method_misc.c:574-728 | activating what was suspended restores the state if and only if all of it was active before |
| Devices.SuspendMakesIneligible | bin/htxd/htxd_equaliser.c:446-452 | a suspended device is not visited by the equaliser, and any other is as before |
| Devices.EligibleIff | bin/htxd/htxd_equaliser.c:446-452 | a device is visited if and only if it is alive, started, not delayed, not through with its cycles, and the global, its error and its run semaphore are 0 |
| Devices.SuspendedIsFrozen | bin/htxd/htxd_equaliser.c:526-528 | an exerciser that is not eligible keeps its whole state and gets no signal |
| Wire.AtoiOfPad | bin/htxd/htxclient_socket.c:221 | a number printed with %010d is read back, negative ones included |
| Wire.PadWidth | bin/htxd/htxclient_socket.c:221-222 | %010d is ten characters long if and only if the number is between -999999999 and 9999999999 |
| Wire.GetStringValue | bin/htxd/htxd_instance.c:608-620 | copies up to the next colon and counts what it copied |
| Wire.UpdateCommandObject | bin/htxd/htxd_instance.c:623-651 | index, qualified name and options are the parts between the colons, the last colon dropped |
| Wire.QualifiedOnce | bin/htxd/htxd_instance.c:638-641 | a name with a slash arrives unchanged, a name without one is put into the mdt directory, and qualifying twice is qualifying once |
| Wire.FrameForms | bin/htxd/htxclient_socket.c:221-222 | the exact text of a small command and of a small response |
| Wire.CommandRoundTripIff | bin/htxd/htxd_instance.c:623-651 | for every index and every option list a command is decoded as it was encoded, up to qualification of the name, if and only if the name has no colon |
| Wire.Stream.ReceiveBytes | bin/htxd/htxclient_socket.c:139-160 | without a receive error the exact prefix of the stream, however it is cut |
| Wire.Stream.ReceiveCommand | bin/htxd/htxd_socket.c:270-316 | the bytes the length field announces, and nothing more taken from the stream |
| Wire.ServeCommand | bin/htxd/htxd_socket.c:270-316 | over any stream without errors a command arrives as the decoding of its encoding, which is the command itself up to qualification of the name if and only if its name has no colon, and exactly the command if the name has a slash; what follows stays in the stream |
| Wire.Stream.SendAll | bin/htxd/htxd_socket.c:337-348 | partial sends put exactly the text on the stream |
| Wire.ReceiveResponse | bin/htxd/htxclient_socket.c:165-209 | reads return code, length and text field by field |
| Wire.ResponseRoundTripIff | bin/htxd/htxd_socket.c:336 | return code and text are read back if and only if the return code fits ten characters |
| Wire.ExchangeResponse | bin/htxd/htxd_socket.c:321-348 | over a stream that sends and receives in pieces, what arrives is the decoding of what was sent, and equals it if and only if the return code fits ten characters |
| Miscompares.TourIsCompleteIff | bin/bufdisp/bufdisp.c:527-570 | f and then n over and over visit every group start once, in increasing order, if and only if the range is not negative or there is at most one miscompare |
| Miscompares.NextIsNextStart | bin/bufdisp/bufdisp.c:546-570 | from a miscompare n goes to the nearest later group start, or reports none |
| Miscompares.StartsMeaning | bin/bufdisp/bufdisp.c:539-545 | the list of group starts holds every one exactly once, increasing |
| Miscompares.EndOfGroup | bin/bufdisp/bufdisp.c:571-598 | if a gap follows, e shows the last miscompare of the current group; if none does, no other group follows |
| Miscompares.BufDisp.FindFirst | bin/bufdisp/bufdisp.c:527-538 | position and line of the first miscompare, or the message and no move |
| Miscompares.BufDisp.FindNext | bin/bufdisp/bufdisp.c:546-570 | the nested loops go to the first miscompare after the first gap, or give the message and no move |
| Miscompares.BufDisp.FindEnd | bin/bufdisp/bufdisp.c:576-598 | shows the line that holds the byte before the gap, or the last screen, at whose bottom the last byte is unless all fits, and the message; the saved position stays |
| Miscompares.BufDisp.VisitGroups | bin/bufdisp/bufdisp.c:527-610 | commands s, f and then n until there are no others show exactly the positions of the tour and end at the last of them, or report that there is no miscompare; they are all group starts in increasing order if and only if the range in force is not negative or there is at most one miscompare |
| AtsTypes.PlacesAreDisjoint | inc/nx_corsa.h:69-83 | each of the 60 fields has a 4-bit place of its own inside the four doublewords |
| AtsTypes.ShiftClosedForm | inc/nx_corsa.h:78-82 | the doubleword and the bit position computed by the macros, field 12 with its negative remainder included |
| AtsTypes.GetAfterSet | inc/nx_corsa.h:78-91 | a set ors the low four bits into its field and changes no other field |
| AtsTypes.TypeReadsBackIff | inc/nx_corsa.h:78-91 | a type is read back if and only if the field held no bit the type lacks |
| AtsTypes.FieldsAreAMap | inc/nx_corsa.h:78-91 | on a cleared block, after any sets, each field reads as the or of the types set on it |
| AtsTypes.ChildBlock.SetTypeField | inc/nx_corsa.h:78-82 | the macro changes the one doubleword in place |

## Left out

- The node, chip and core levels of the machine: the equaliser's CPUs are one list in that order.
- CPU offlining and binding around the signals, logging, clocks, the start-up delay, and the exit when a bind fails.
- The mdt file between create_eq_mdt and the daemon, and the stanza library that reads it: device names and utilisation strings are inputs.
- Of parse_filter the node, chip and core fields, percentages, * and [0-n]; the logical CPU number of a thread is an input.
- Resources.FieldRoundTrip: thread numbers beyond those of the core, which parse_filter reports.
- Capacities of fixed buffers, such as 10 percentages, 20 slots per CPU, 512-byte lists and the exer table: inputs are taken to fit.
- int overflow in atoi and in the CPU number: numbers are unbounded, except where a narrower store is written out.
- Schedule.Next: lengths over 32 and percentages over 100 shift by undefined amounts in C and are not given a meaning; `1 << 31` is read as bit 31.
- Equaliser.Equaliser.UpdateConfigDetail: a text of percent signs only, where the source compares a null pointer; it is taken for an unknown mode without percentages.
- EqCfgLine.ReadDeviceLine: a field without digits reads as 0, where sscanf leaves the number unset; an entry of opening brackets only is improper, where the source hands sscanf a null pointer.
- Stanzas.ReadCore: mem devices are named like the others; on POWER9 and later a mem line defines one numbered device (`CpuBinding.StanzaBindsItsCpuIff`).
- PowerRamp.RunRamp: more than 16 cores, whose literal schedules do not fit the 32-bit word (`Utilization.LiteralsKeptApartIff`), and POWER9 and later, where a core's mem line defines one numbered device instead of one per thread.
- ExerTable.Table.Serve: loads that fail; the ECG list and its counter are in `EcgKeys`.
- Utilization.StrToUlBits: strtoul's blanks and signs before the digits are not modelled.
- Devices.Ecg.SuspendDevice: one ECG only; over several the source consumes the list on the first.
- Wire.Stream.ReceiveCommand: a negative length field, for which the source has no check.
- Wire.ReceiveResponse: a negative text length, likewise.
- EcgList.EcgManager.RemoveEcgInfoNode: the only node while the counter is not 1, where the source follows a null link; `EcgKeys.FailedLoadHistories` has a history that gets there.
- EcgList.EcgManager.ShutdownAllMdt: a list whose counter is not its length, where the source follows a null link or a freed node (`EcgKeys.DrainsIff`).
- Responses to the screen client, which have a fixed length.
- The grouping of cores in the two thread-transition files, which compares with the core count of one chip and decides when a new matrix is drawn.
- The restart path for devices that come back, and the loop that starts exercisers halted without advancing its pointer.
- The comparison that fills bufdisp's diff array, its screen output and scrolling.
- Status tables, profile, licence and boot scripts, getters and setters: they compute nothing that the rest depends on.
