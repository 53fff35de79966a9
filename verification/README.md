# altocumulus input staging, in Dafny

This project models how altocumulus (`alto`, and its older `cumulus_util`
front end) stages the local inputs of a WDL workflow into a cloud bucket
before submission. It also models the small pure cores around that step:
parsing workflow names, converting inputs for the three submitters, the
access-list update when publishing methods, and the helpers of the
Cromwell commands.

The staging subsystem exists in three revisions, and the model keeps all
three side by side.

- **Current** (`alto/utils/io_utils.py`). It serves `gcp` or `aws`
  buckets. It hands folders to one of three strategies:
  - BCL flowcells (`alto/utils/bcl_utils.py`);
  - FASTQ folders (`alto/utils/fastq_utils.py`);
  - everything else as a plain copy.
  A sample sheet is rewritten so that every local path in it points at the
  uploaded copy. `alto/utils/tar_utils.py` holds a transfer of the same
  shape as the FASTQ one for folders of `*.tar` files. The staging loop
  never calls it, so the model keeps it as a module of its own (`Tar`).
- **GsOnly** (`alto/commands/upload.py`). It supports Google Storage only,
  copies with `gsutil`, and handles flowcells and sample sheets.
- **Legacy** (`cumulus_util/commands/fc_upload.py`). It allocates URLs by
  appending `-k`, scans sheets column by column, and keeps the last data
  frame it read across loop iterations.

## How the model is built

- **State.** Staging state is a `Stage`:
  - a URL factory (bucket, scheme, the set of URLs already issued);
  - the registry from local path to uploaded URL;
  - the list of effects issued so far (commands run, files written,
    files removed).
- **Operations.** Every operation is a pure function from a stage to a
  `Staged` result. Python exceptions become `Err` values. Each carries the
  exception class the source raises.
- **The host.** The filesystem is a `World`: files, directories, readable
  files, a directory listing and `abspath`. Whether a subprocess succeeds
  is an oracle `w.accepts(argv)`. A dry run issues the command without
  asking the oracle.
- **Globbing.** `glob.glob` is a filter of the listing by
  component-wise `fnmatch`.
- **Remote answers.** Answers from the Terra, Dockstore and Cromwell REST
  services are parameters.
- **Modules.**
  - `Base`: results, error kinds, effects.
  - `Strs`: string search, split/join, integer text.
  - `Paths`: `os.path`.
  - `Host`: the world, glob, running commands.
  - `Urls`: the URL factories.
  - `Wdl`: the input manifest and the float tag.
  - `Lanes`, `Bcl`, `Fastq`, `Tar`: the folder strategies.
  - `Staging`: the Current and GsOnly revisions.
  - `FcUpload`: the Legacy revision.
  - `Firecloud`, `Dockstore`, `AltoUtil`, `Submit`, `Cromwell`,
    `MethodRepo`: the secondary cores.

## Model

| member | source | states |
|---|---|---|
| Urls.NewFactory | alto/utils/io_utils.py:47-52 | Only the `gcp` and `aws` backends give a factory; any other raises AssertionError. The scheme is `gs` exactly for gcp and `s3` exactly for aws. The factory starts with no URL issued. |
| Urls.NewGsFactory | alto/commands/upload.py:20-34 | The gs-only factory is the current factory for the `gcp` backend: scheme `gs`, the given bucket, nothing issued. So it allocates URLs by the same rule. |
| Urls.GetUniqueUrl | alto/utils/io_utils.py:54-63 | The returned URL was never issued by this factory before. It is the only URL added to the issued set. |
| Urls.GetUniqueUrlIsFirstFree | alto/utils/io_utils.py:54-63 | The URL is the first unissued one of `root+ext`, `root_2+ext`, `root_3+ext`, …, where `root+ext` is `<scheme>://<bucket>/<basename>` split at its extension. |
| Urls.FreshBaseUrl | alto/utils/io_utils.py:54-57 | A basename not seen before is uploaded as `<scheme>://<bucket>/<basename>` itself. |
| Urls.CollisionNumbered | alto/utils/io_utils.py:58-63 | On a collision, the URL carries a counter of at least 2 between the root and the extension. |
| Urls.AllocateAll | alto/utils/io_utils.py:54-63 | Allocating a sequence of paths gives pairwise distinct URLs, none issued before. The issued set grows by exactly those URLs. |
| Urls.LegacyUniqueUrl | cumulus_util/commands/fc_upload.py:12-18 | The legacy factory returns an unissued URL of the form `base+name`, or `base+name-k` for some counter k. |
| Urls.ProbeFrom | alto/utils/io_utils.py:58-63 | The probing loop stops at the first counter whose candidate is free, and every candidate it skipped is taken. |
| Wdl.Put | alto/utils/io_utils.py:281 | Assigning a key works as on a Python dict: the key order is kept, a new key goes last, the key maps to the new value, and every other key is unchanged. |
| Wdl.Update | alto/commands/upload.py:211-215 | `dict.update` keeps the keys of both sides and leaves the keys the other side lacks unchanged. |
| Wdl.UpdateTakesOther | alto/commands/upload.py:211-215 | After `dict.update`, a key of the other side holds the other side's value. |
| Wdl.UntagLines | alto/utils/io_utils.py:285-288 | Removing the float tag from rendered text works line by line. |
| Wdl.UntagNoMarker | alto/utils/io_utils.py:285-288 | Text without the tag is written unchanged. |
| Wdl.UntagEntryLine | alto/utils/io_utils.py:285-288 | A float tagged when read (io_utils.py:33) and rendered as the entry `"k": "<tag><literal>"` of an object at any depth of indentation is written back as `"k": <literal>`, with its trailing comma, if any, kept. |
| Wdl.UntagListItemLine | alto/utils/io_utils.py:285-288 | A tagged float rendered as an item of a list, at any indentation, is written back as its bare literal, with its trailing comma, if any, kept. |
| Lanes.UpdateLanes | alto/utils/bcl_utils.py:10-21 | `*` selects all lanes. A non-text cell raises AttributeError. More than two `-` fields raise AssertionError. A single field adds its integer. `a-b` adds every lane from a to b. A non-integer raises ValueError. Otherwise the all-lanes flag is kept. |
| Lanes.Insert | alto/utils/bcl_utils.py:17 | Adding a lane keeps the set ascending and adds exactly that lane. |
| Lanes.InsertRange | alto/utils/bcl_utils.py:19-21 | Adding a range keeps the set ascending and adds exactly the lanes between the bounds. |
| Lanes.GetLanes | alto/utils/bcl_utils.py:23-29 | The answer is `["*"]` exactly when all lanes were selected or none were added. Otherwise it is one zero-padded `L00n` name per lane, in order. |
| Lanes.LaneNameRoundTrip | alto/utils/bcl_utils.py:27-29 | Parsing the digits of a lane's name gives the lane back. |
| Lanes.LaneNameInjective | alto/utils/bcl_utils.py:27-29 | Different lanes get different names. |
| Lanes.StarIsSticky | alto/utils/bcl_utils.py:12-13 | Once a `*` cell has been fed, the flowcell transfers all lanes, whatever cells follow. |
| Strs.ParseIntToString | alto/utils/bcl_utils.py:18-20 | `int()` of the decimal text of an integer gives the integer back. |
| Bcl.ExpandLanes | alto/utils/bcl_utils.py:74-81 | Only `["*"]` is expanded. It lists the `L0*` directories of `Data/Intensities/BaseCalls`. A missing BaseCalls raises FileNotFoundError, and a BaseCalls that is a file raises NotADirectoryError. |
| Bcl.RunAll | alto/utils/bcl_utils.py:83-93 | The commands run in order and stop at the first failure. They succeed exactly when each is dry or accepted, and the failure is CalledProcessError. |
| Bcl.Prologue | alto/utils/bcl_utils.py:62-72 | RunInfo.xml is copied first. A missing RTAComplete.txt raises FileNotFoundError under `strato` and AssertionError under `gsutil`. The prologue succeeds exactly when RTAComplete.txt and a run-parameters file exist and the three copies are dry or accepted. It then copies RunInfo.xml, RTAComplete.txt and that file, in that order. With both earlier copies through and no run-parameters file, it raises FileNotFoundError. |
| Bcl.LaneCommands | alto/utils/bcl_utils.py:83-93 | Each lane's BaseCalls folder is synced. Then either the single `s.locs` is copied, or each lane's Intensities folder is synced. |
| Bcl.LaneTransfers | alto/utils/bcl_utils.py:74-93 | A lane expansion failure is raised before any command. Otherwise the lane commands run in order, and the transfer succeeds exactly when every one is dry or accepted. |
| Bcl.TransferFlowcell | alto/utils/bcl_utils.py:38-93 | The transfer starts by copying RunInfo.xml. A missing RTAComplete.txt stops it right after that copy, and a missing run-parameters file raises FileNotFoundError. It succeeds exactly when the prologue can go through, the lanes expand, and every lane command is dry or accepted. The lane commands then follow the three prologue copies. No command fails in a dry run. |
| Bcl.DryRunCompletes | alto/utils/bcl_utils.py:38-93 | A dry run of a flowcell succeeds when it has RTAComplete.txt, a run-parameters file, and (when all lanes are asked for) a BaseCalls directory. |
| Fastq.UpdateSampleMap | alto/utils/fastq_utils.py:11-14 | A sample may be added once; a second time raises ValueError. A sample without files is recorded as `["*"]`. The other samples are unchanged. |
| Fastq.UpdateKeepsKeysDistinct | alto/utils/fastq_utils.py:11-14 | Sample names in the map stay distinct. |
| Fastq.PathIsFastqListing | alto/utils/fastq_utils.py:20-22 | A folder is a FASTQ folder exactly when it, or one of its subfolders, directly holds a visible `*.fastq.gz` file. |
| Fastq.SampleCommand | alto/utils/fastq_utils.py:33-71 | Listed files are copied as given. A `*` sample copies its files from the folder's top level when any are there. Otherwise it syncs the sample's own subfolder when that holds them. Finding neither raises ValueError. |
| Fastq.AllFilesFound | alto/utils/fastq_utils.py:34-57 | For a `*` sample, the copy fails exactly when no file of that sample's FASTQ name pattern is listed, neither at the top level nor in the sample's own folder. |
| Fastq.TransferFastq | alto/utils/fastq_utils.py:25-73 | Each sample gets one copy, in order, stopping at the first sample that has no files or whose copy fails. The error is ValueError or CalledProcessError. |
| Tar.UpdateSampleSet | alto/utils/tar_utils.py:13-16 | A sample may be added once; a second time raises ValueError. The set stays duplicate-free. |
| Tar.PathIsTarListing | alto/utils/tar_utils.py:22-23 | A folder is a tar folder exactly when it directly holds a visible `*.tar` file. |
| Tar.TarCommand | alto/utils/tar_utils.py:35-53 | The copy is issued exactly when the sample's tar pattern matches one file. Otherwise it raises ValueError. |
| Tar.TransferTar | alto/utils/tar_utils.py:26-55 | One copy per sample, in order, stopping at the first failure. Success means every sample had one tar and every copy ran. |
| Host.Glob | alto/utils/fastq_utils.py:20-22 | A literal pattern returns the path exactly when it exists. A pattern with wildcards returns exactly the listed paths it matches. |
| Host.GlobChildren | alto/utils/tar_utils.py:22-23 | `d/<pattern>` matches exactly the visible listed entries directly in `d` whose name matches the pattern. |
| Host.RunCommand | alto/utils/__init__.py:8-22 | The command is always recorded. It fails exactly when it is not a dry run and the process fails. |
| Host.RunEach | alto/utils/fastq_utils.py:33-73 | Steps run in order, stopping at the first step that could not be built or whose command fails. Every effect is a run of its step's command. |
| Host.RunEachStops | alto/utils/fastq_utils.py:33-73 | When the loop stops early, the step it stopped at either could not be built or its command failed. |
| Staging.LanesFor | alto/utils/io_utils.py:83-92 | A source without a lane entry transfers all lanes. Otherwise its lanes come from the sheet's lane manager, looked up by the source text. |
| Staging.NoRunInfoSynced | alto/utils/bcl_utils.py:32-35 | A directory without `RunInfo.xml` is no flowcell. Outside the FASTQ case it is synchronised as a whole by one plain command. |
| Staging.PlainCommand | alto/utils/io_utils.py:102-110 | Current runs `strato sync` for a directory and `strato cp` otherwise, on the given backend. The source and destination come last, then `--profile <p>` when a profile is given. GsOnly runs `gsutil`, with `-m` exactly for a directory, and ends with the source and destination. |
| Staging.TransferData | alto/utils/io_utils.py:66-110 | A flowcell goes to the BCL transfer. A FASTQ folder (Current only) goes to the FASTQ transfer. Anything else gets one plain copy, recursive for a directory. |
| Staging.CellTarget | alto/utils/io_utils.py:159-171 | Under Current, a cell naming a FASTQ folder is staged per sample, and a non-text sample raises TypeError. Otherwise the cell's absolute path is staged. |
| Staging.ScanCell | alto/utils/io_utils.py:159-188 | A non-local cell is left alone. A local cell already registered is replaced by its URL. A new one is allocated, registered and transferred, then replaced. |
| Staging.ScanRows | alto/utils/io_utils.py:156-188 | Every data row keeps its length. Each cell is either unchanged or a local path replaced by its registered URL. A sheet without local cells is left untouched. |
| Staging.ReadLanes | alto/utils/io_utils.py:145-151 | Lanes are read only when the sheet has both `flowcell` and `lane` columns. A repeated `flowcell` column raises TypeError, a repeated `lane` column raises ValueError. |
| Staging.FeedLanesKeys | alto/utils/io_utils.py:145-151 | A flowcell is a key of the lane map exactly when some data row names it. |
| Staging.FeedLanesGroups | alto/utils/io_utils.py:145-151 | Each flowcell's lane manager is what `update_lanes` makes of that flowcell's lane cells alone, in row order. |
| Staging.SheetLanes | alto/utils/io_utils.py:145-151 | A source's lanes are those of its rows' lane cells, fed in order. |
| Staging.TransferSampleSheet | alto/utils/io_utils.py:113-198 | An unreadable sheet raises PermissionError (Current). An unparsable or empty sheet is sent as is. The sheet is rewritten exactly when a data row holds a local path. It is then written to a temporary file with the sheet's separator. |
| Staging.RewriteSheet | alto/utils/io_utils.py:153-198 | The rewritten flag is set exactly when some data row holds a local cell. An unrewritten sheet leaves the stage unchanged. |
| Staging.SheetSep | alto/utils/io_utils.py:195 | A rewritten sheet is written with `,` exactly when its name ends in `.csv`, and with a tab otherwise. |
| Staging.SheetByExtension | alto/utils/io_utils.py:259-261 | A path is scanned as a sheet exactly when the extension of its last component, lowercased, is `.txt`, `.xlsx`, `.tsv` or `.csv`. |
| Staging.NoDotNoSheet | alto/utils/io_utils.py:259-261 | A last component without a dot is never scanned, even under a directory named like a sheet. |
| Paths.Splitext | alto/utils/io_utils.py:57 | `os.path.splitext` splits a path into a root and an extension that concatenate back to it. The extension is empty or a single dot-led suffix of the last component. |
| Paths.SplitextOf | alto/utils/io_utils.py:259 | A last component `root.ext`, whose root does not start with a dot, splits at the dot of its extension. |
| Staging.SendFile | alto/utils/io_utils.py:273-283 | An unchanged file is transferred as is. A rewritten sheet's temporary copy is transferred and then removed. |
| Staging.SendPath | alto/utils/io_utils.py:258-283 | A path that is not a sheet gets exactly its transfer. A rewritten sheet ends with the copy of its temporary file to the URL and then the file's removal. |
| Staging.SendPathSent | alto/utils/io_utils.py:258-283 | A sent sheet went up either by its own transfer or as its rewrite, copied and then removed. |
| Staging.StageValue | alto/utils/io_utils.py:248-283 | A non-local or already registered value is skipped. A new path gets the factory's next unique URL, registered under its absolute path, and that URL replaces the value on success. A new non-sheet path appends exactly the effects of its transfer, and succeeds exactly when that transfer does. A sent sheet went up as it was, or as its rewrite followed by the rewrite's removal. Only this value's path, or paths of its sheet, are newly registered. |
| Staging.StageAll | alto/utils/io_utils.py:248-283 | Only local values get a URL, only when their path was not registered before, and it is the URL their path is registered under. Every local path ends up registered. A local value that no earlier value can have claimed, by naming the same path or by being a sheet, does get its URL. No path gets two URLs. |
| Staging.BucketPath | alto/utils/io_utils.py:242-243 | Without a folder the bucket is used as is. GsOnly appends `/` and the folder as given. Current appends `/` and the folder with every leading and trailing slash removed and the middle kept. |
| Staging.Upload | alto/utils/io_utils.py:203-288 | An unknown backend raises AssertionError and does nothing. The manifest keeps its keys and order. A non-local value is kept. Every local path is registered. A local value no earlier value can have claimed is replaced by its registered URL. Changed values hold distinct URLs. The output file receives the rendering. Current writes it with the float tags stripped, and GsOnly writes it as is. |
| Staging.UploadedFromStaged | alto/utils/io_utils.py:248-283 | Writing the staged URLs back into the manifest changes only local values, each into the URL its path is registered under. Every unclaimed local value is changed, and changed values are pairwise distinct. |
| Staging.EveryPlainPathReplaced | alto/utils/io_utils.py:248-281 | With no sheets and no two values naming the same path, every local value of the uploaded manifest is replaced by the URL its path is registered under. |
| Staging.CollectInputs | alto/commands/upload.py:209-215 | Collecting the arguments succeeds exactly when every JSON or missing argument loads. |
| Staging.PathArgKept | alto/commands/upload.py:209-215 | An existing non-JSON argument is kept under its own fresh key. |
| Staging.ArgKeysCollected | alto/commands/upload.py:209-215 | Every key of every argument is a key of the collected inputs. |
| FcUpload.LegacyExtension | cumulus_util/commands/fc_upload.py:51-56 | The extension is what follows the last `.` of the whole path, lowercased, and is empty without a dot. |
| FcUpload.ExtensionSpansDirectories | cumulus_util/commands/fc_upload.py:51-56 | Taking the text after the last dot of the whole path can cross a directory: `/d.csv/sheet` has extension `csv/sheet`, where `os.path.splitext` gives none. |
| FcUpload.LegacyAllocate | cumulus_util/commands/fc_upload.py:47-48 | A legacy URL is fresh, starts with `base+basename`, and differs from every registered URL. |
| FcUpload.LegacyScanFrom | cumulus_util/commands/fc_upload.py:62-76 | The column-by-column scan covers every cell, row 0 included. Each cell is unchanged or its local path is replaced by the registered URL. |
| FcUpload.NoLocalNoEffect | cumulus_util/commands/fc_upload.py:62-76 | A table without local cells leaves the stage unchanged. |
| FcUpload.LegacySheet | cumulus_util/commands/fc_upload.py:51-86 | Non-sheet extensions are sent as they are. The data frame of an earlier sheet is reused when this one is not parsed, and using it unbound raises NameError. A changed sheet is written to a temporary file. |
| FcUpload.LegacyCommand | cumulus_util/commands/fc_upload.py:21-27 | The legacy copy is `gsutil -m rsync -r` for a directory and `gsutil -m cp -r` otherwise, from the source to the destination. |
| FcUpload.LegacySendFile | cumulus_util/commands/fc_upload.py:78-86 | An unchanged file is sent by the legacy copy. A changed sheet's temporary file is copied and then removed. The send fails exactly when the command is not dry and fails. |
| FcUpload.LegacyEntry | cumulus_util/commands/fc_upload.py:41-86 | A non-local or registered value is skipped. A new path gets the legacy unique URL under the base and is registered. A non-sheet is sent by one legacy copy and succeeds exactly when that copy does. A sent sheet went up as it was or as its rewrite, followed by the rewrite's removal. |
| FcUpload.LegacyAll | cumulus_util/commands/fc_upload.py:40-86 | The value loop gives every local value no earlier value can have claimed its URL, and no path two URLs. A dry run fails only with NameError. |
| FcUpload.FcUpload | cumulus_util/commands/fc_upload.py:33-86 | The manifest keeps its keys. A non-local value is kept. A local value no earlier value can have claimed is replaced by its registered URL. Changed values hold distinct URLs under `gs://<bucket>[/<folder>]/`. A dry run fails only with NameError. |
| Firecloud.ParseFirecloudWorkflow | alto/utils/firecloud_utils.py:29-37 | `ns/name[/version]` parses exactly when it has two or three fields and the third is an integer. Otherwise it raises ValueError. |
| Firecloud.ParseWorkflowString | alto/utils/firecloud_utils.py:29-37 | Parsing a written workflow name gives back its namespace, name and version. |
| Firecloud.ParseWorkspace | alto/utils/firecloud_utils.py:97-103 | A workspace parses exactly when it has two `/` fields. |
| Firecloud.WorkspaceRejectsVersion | alto/utils/firecloud_utils.py:97-103 | A versioned workflow name is not a workspace. |
| Firecloud.LatestIndex | alto/utils/firecloud_utils.py:81-84 | The chosen snapshot has the largest id. On ties, the earliest one is chosen. |
| Firecloud.MethodUriParses | alto/utils/firecloud_utils.py:86-92 | The method URI is `agora://` followed by a workflow name that parses back to the method. |
| Firecloud.GetFirecloudWorkflow | alto/utils/firecloud_utils.py:66-94 | A given version must exist. Without one, the latest snapshot of a non-empty listing is described. Otherwise it raises ValueError. |
| Dockstore.ParseDockstoreWorkflow | alto/utils/dockstore_utils.py:28-37 | `org:collection:workflow[:version]` parses exactly when it has three or four `:` fields. |
| Dockstore.ParseDockstoreString | alto/utils/dockstore_utils.py:28-37 | Parsing a written Dockstore name gives back its parts. |
| Dockstore.FindEntry | alto/utils/dockstore_utils.py:85-94 | The first entry whose path basename equals the workflow, ignoring case, is found, and none is found exactly when no entry matches. |
| Dockstore.FindVersion | alto/utils/dockstore_utils.py:104-121 | The first version with the name, ignoring case, is found, and none is found exactly when no version matches. |
| Dockstore.PickVersion | alto/utils/dockstore_utils.py:104-137 | The first version named as requested, ignoring case, decides (the default version when none is requested). The result is Ok exactly when that version exists and is not hidden. It describes that version, with `methodPath` the full workflow path with each `/` written as `%2F`. Every failure is ValueError. |
| Dockstore.GetDockstoreWorkflow | alto/utils/dockstore_utils.py:85-137 | A description needs the organization, the collection and a matching entry. Once those are found, a fetched workflow is described exactly as its version choice gives, and an unfetched one fails. Every failure raises ValueError. |
| Dockstore.FirstMatchDecides | alto/utils/dockstore_utils.py:110-119 | A hidden first match is refused, even when a later version with another casing of the name is visible. |
| AltoUtil.FsSplit | alto/util.py:50-70 | Without `/`, nothing is split off. With one, the text is `ns/name` or `ns/name/version`, and a non-integer version raises ValueError. |
| AltoUtil.FsSplitWorkflowString | alto/util.py:50-70 | Splitting a written workflow name gives back its parts. |
| AltoUtil.FsSplitTrailingSlash | alto/util.py:50-70 | `ns/` gives the namespace with an empty name. |
| AltoUtil.GetLatestMethod | alto/util.py:11-22 | A latest snapshot exists exactly when some id is at least 0. It is the largest id. |
| AltoUtil.LatestAgree | alto/util.py:16-20 | The two ways of finding the latest snapshot agree. |
| AltoUtil.FcRunVersion | cumulus_util/commands/fc_run.py:42-53 | A given version is used. Otherwise a method found in another namespace raises AssertionError. |
| AltoUtil.FcRunMethodUri | cumulus_util/commands/fc_run.py:70-72 | The method URI `fc_run` writes is the one the methods repository describes for the same snapshot. |
| Submit.DetectWorkflowSource | alto/commands/terra/run.py:8-13 | A workflow is from Dockstore exactly when its name contains `:`. |
| Submit.WorkflowStringsDetected | alto/commands/terra/run.py:8-13 | Every `ns/name[/version]` name is detected as a methods-repository workflow. |
| Submit.ConvertInputs | alto/commands/terra/run.py:16-35 | Every input keeps its key and position and is converted by its submitter's rule. |
| Submit.InputsAfter | alto/commands/run.py:8-22 | Only lists of strings are changed in place, into their quoted items. |
| Submit.TaggedFloat | alto/commands/terra/run.py:16-35 | A tagged float, which the Terra submitter's own loader produces, is passed as its bare literal by that submitter. The other two submitters receive a tagged float only when a caller passes one in. They then pass it as a quoted tagged string. |
| Submit.UntaggedFloatShown | alto/commands/run.py:19-20 | A float read without the tag is passed by every submitter as Python's `str` of it. This is what `get_wdl_inputs` (alto/util.py:36-47) yields. |
| Submit.StringQuoted | alto/commands/run.py:8-22 | A string input is passed quoted. |
| Submit.StringListRoundTrip | alto/commands/run.py:8-22 | A list of comma-free strings is passed in a form from which the list is read back. |
| Cromwell.ParseBucketFolderUrl | alto/commands/cromwell/run.py:12-24 | A bucket URL without `://` raises AssertionError. A `gs://` URL is gcp, anything else aws. The bucket id holds no `/`. |
| Cromwell.ParseBucketFolderUrlString | alto/commands/cromwell/run.py:12-24 | Parsing `scheme://id/folder` gives back the id and folder. |
| Cromwell.ParseBucketUrlNoFolder | alto/commands/cromwell/run.py:12-24 | `scheme://id` gives the id and an empty folder. |
| Cromwell.FolderlessBucketDoubleSlash | alto/commands/cromwell/run.py:60-62 | A folderless gs bucket reaches the upload as an empty folder, so uploaded URLs are `gs://id//basename`. |
| Cromwell.WorkflowUrl | alto/commands/cromwell/run.py:50-69 | An http(s) URL is used as given. Any other name must parse as a Dockstore name. It then succeeds exactly when the Dockstore lookup does, with the URL the lookup gives. Every failure is ValueError. |
| Cromwell.DockstoreNameResolves | alto/commands/cromwell/run.py:50-69 | A Dockstore name written from its fields resolves to the URL of the Dockstore lookup of its workflow and version, and fails exactly when that lookup fails. |
| Cromwell.GetLocalizePath | alto/commands/cromwell/get_logs.py:7-15 | A URI without `://` is local and an `s3://` one is aws. The localized path is a suffix of the URI, starting at the job id when present. |
| Cromwell.GetRemoteLogFile | alto/commands/cromwell/get_logs.py:18-23 | One copy command is issued, and its failure is swallowed. |
| MethodRepo.MethodName | alto/commands/terra/add_method.py:21-24 | The method name is the file's basename cut where its last `.wdl` begins, in any case, or the whole basename. |
| MethodRepo.MethodNameOfWdlFile | alto/commands/terra/add_method.py:21-24 | `dir/name.wdl<rest>` is added as `name` when `rest` holds no further `.wdl`. |
| MethodRepo.MergePublic | alto/commands/terra/add_method.py:33-41 | Making a method public turns its first `public` entry into a reader, or appends one. Entries of other users are unchanged. |
| MethodRepo.MergePublicIdempotent | alto/commands/terra/add_method.py:33-41 | Making a method public twice gives the same list as once. |
| MethodRepo.CreatedMembers | alto/commands/terra/add_method.py:43-53 | The created methods are exactly the files the repository answered with 201. |
| MethodRepo.AddMethods | alto/commands/terra/add_method.py:43-53 | The count of added methods is the count of created files. Only non-empty access lists are pushed, at most one per created method. |
| MethodRepo.RemoveSelection | alto/commands/remove_method.py:12-39 | A name without `/` or an empty listing raises ValueError. `ns/` selects the namespace's methods, `ns/name` the method's snapshots, and `ns/name/version` the listed snapshot. |
| MethodRepo.RemoveVersionDeletesFirst | alto/commands/remove_method.py:12-39 | A versioned name deletes the first snapshot the listing returned. |
| MethodRepo.RemoveNamespace | alto/commands/remove_method.py:12-39 | `ns/` deletes every method of that namespace. |
| MethodRepo.RemoveAllVersions | alto/commands/remove_method.py:12-39 | `ns/name` deletes every snapshot of that method. |

## Left out

- **Running programs.** Subprocesses (`strato`, `gsutil`, `aws`) are not executed. Their success is the oracle `accepts`, and commands are recorded as effects.
- **REST services.** Calls to Terra, Dockstore and Cromwell are parameters of the operations that use their answers.
- **File formats.** `pandas.read_csv`/`read_excel` and `json.dumps` are not interpreted.
  - A sheet read is a parameter giving a table or a parse failure.
  - An empty table is treated like a parse failure.
  - Rendering the manifest is a parameter.
  - Current renders with `json.dumps(..., indent=4)`, and GsOnly (`alto/commands/upload.py:196`) with `json.dump` and no indent. The one rendering parameter stands for both, so the model does not distinguish their indentation.
  - `str()` of a cell or value is the `show` parameter.
- **Generated names.** Temporary file names and `uuid.uuid1()` keys are parameters (`tempFile`, `freshKey`).
- **Folder detection.** The Current revision's FASTQ folder detection (`folder_is_fastq`) and its FASTQ transfer are parameters, for two reasons.
  - `alto/utils/fastq_utils.py` defines no `folder_is_fastq` (only `path_is_fastq` and `transfer_fastq`), so the import at `alto/utils/io_utils.py:13` cannot succeed.
  - The call of `transfer_fastq` at `alto/utils/io_utils.py:94-101` passes `backend=` and no `sample_map`, which the signature in `fastq_utils.py` does not accept.
- **Bcl.TransferFlowcell: no profile.** The Current revision passes a profile to `transfer_flowcell`, which has no such parameter. The model drops it.
- **Set order.** Python sets iterate in an unspecified order.
  - Lanes are kept ascending.
  - Tar samples are kept in insertion order.
- **Glob and character classes.**
  - `[...]` character classes in glob patterns are treated as literal characters.
  - Lower-casing and stripping are ASCII only.
- **Sheet write-through.** The sheet rewrite assumes that assigning `row[idxc]` inside `iterrows` (`alto/utils/io_utils.py:187`) changes the data frame. pandas does this only for a frame of one dtype and without copy-on-write. The model always writes the change through.
- ParseInt: accepts ASCII digits only. Python's `int()` also accepts other Unicode decimal digits and surrounding whitespace beyond ASCII.
- UntagEntryLine: keys holding a quote (which `json.dumps` escapes) or beginning with the tag text are not covered. Neither are lines whose text after the tag holds another quote.
- **Verbose output.** Verbose printing and the dry-run messages are not modelled.
- **AltoUtil.GetLatestMethod: no final fetch.** It does not model the final fetch of the method, only the choice of the snapshot id.
- **Terra method removal.** `alto/commands/terra/remove_method.py` is not part of this model. Its guards index the listing past the length they checked.
- **Other commands.** Storage estimates, monitoring-log parsing, downloads, `query`, the other Cromwell REST commands (abort, metadata, status, timing, job lists) and command-line parsing are not part of this model.
