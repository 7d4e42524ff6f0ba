/**
 * The converter window's state and the handlers that change it: the list
 * of chosen files, the list box that shows them, and the batch conversion
 * the "Convert Images" button runs. Widgets other than the list box, the
 * file dialog and the list box selection are inputs of the handlers.
 */
module ConverterApp {
  import opened Paths
  import opened Conversion
  import opened FileLists

  class App {
    /** The files to convert, in the order they were added. */
    var files: seq<Path>
    /** The rows of the list box, top to bottom. */
    var listbox: seq<Path>
    /** Where converted files are written. */
    var outputDir: string

    /** No file is listed twice, and the list box shows exactly `files`. */
    ghost predicate Valid()
      reads this
    {
      NoDuplicates(files) && listbox == files
    }

    constructor (outputDir: string)
      ensures Valid()
      ensures files == [] && this.outputDir == outputDir
    {
      files := [];
      listbox := [];
      this.outputDir := outputDir;
    }

    /**
     * "Add Files": append every file picked in the dialog that is not listed
     * yet, to both the list and the list box, in the dialog's order.
     */
    method AddFiles(picked: seq<Path>)
      requires Valid()
      modifies this`files, this`listbox
      ensures Valid()
      ensures files == Dedup(old(files) + picked)
    {
      DedupOfDistinct(files);
      assert old(files) + picked[..0] == old(files);
      for i := 0 to |picked|
        invariant files == Dedup(old(files) + picked[..i])
        invariant listbox == files
      {
        var file := picked[i];
        assert old(files) + picked[..i + 1] == (old(files) + picked[..i]) + [file];
        if file !in files {
          files := files + [file];
          listbox := listbox + [file];
        }
      }
      assert picked[..|picked|] == picked;
    }

    /**
     * "Remove Selected": `selection` is the list box's selection, ascending
     * row numbers. The selected paths are removed from `files` by value, then
     * the selected rows are deleted from the list box from the bottom up.
     */
    method RemoveSelected(selection: seq<nat>)
      requires Valid()
      requires AscendingPositions(selection, |listbox|)
      modifies this`files, this`listbox
      ensures Valid()
      ensures files == Drop(old(files), selection)
    {
      var rows := listbox;
      var selectedFiles := seq(|selection|, k requires 0 <= k < |selection| => rows[selection[k]]);
      RemoveFiles(selectedFiles);
      DeleteRows(selection);
      SelectedValuesAreSelectedPositions(old(files), selection, selectedFiles);
    }

    /** Remove each of `selected` that is still listed from `files` by value, as the guarded `list.remove` does. */
    method RemoveFiles(selected: seq<Path>)
      requires NoDuplicates(files)
      modifies this`files
      ensures files == RemoveValues(old(files), selected)
    {
      RemoveNoValues(files);
      for k := 0 to |selected|
        invariant files == RemoveValues(old(files), selected[..k])
      {
        var file := selected[k];
        RemoveFirstExtendsRemoveValues(old(files), selected[..k], file);
        assert selected[..k + 1] == selected[..k] + [file];
        if file in files {
          files := RemoveFirst(files, file);
        }
      }
      assert selected[..|selected|] == selected;
    }

    /**
     * Delete the rows at `selection` from the list box, last row first, so
     * that each deletion leaves the rows still to be deleted where they were.
     */
    method DeleteRows(selection: seq<nat>)
      requires AscendingPositions(selection, |listbox|)
      modifies this`listbox
      ensures listbox == Drop(old(listbox), selection)
    {
      DropNone(listbox, []);
      assert selection[|selection|..] == [];
      var j := |selection|;
      while j > 0
        invariant 0 <= j <= |selection|
        invariant listbox == Drop(old(listbox), selection[j..])
      {
        j := j - 1;
        DropDescendingStep(old(listbox), selection, j);
        listbox := listbox[..selection[j]] + listbox[selection[j] + 1..];
      }
      assert selection[0..] == selection;
    }

    /** "Clear All": empty both the list and the list box. */
    method ClearAll()
      modifies this`files, this`listbox
      ensures Valid()
      ensures files == []
    {
      files := [];
      listbox := [];
    }

    /**
     * "Convert Images": with no files, only warn; otherwise convert every
     * listed file in order and report one line for each, whether it
     * succeeded or failed.
     */
    method ConvertImages(lib: Library, format: string) returns (warned: bool, lines: seq<ReportLine>)
      ensures warned <==> files == []
      ensures |lines| == |files|
      ensures forall i :: 0 <= i < |files| ==>
                lines[i] == Report(files[i], ConvertImage(lib, files[i], format, outputDir))
      ensures forall i :: 0 <= i < |files| && lines[i].Failed? ==> lines[i].path == files[i]
      ensures Sep !in format ==>
                forall i :: 0 <= i < |files| && lines[i].Converted? ==>
                  lines[i].name == OutputName(files[i], format)
    {
      lines := [];
      if files == [] {
        warned := true;
        return;
      }
      warned := false;
      for i := 0 to |files|
        invariant |lines| == i
        invariant forall k :: 0 <= k < i ==>
                    lines[k] == Report(files[k], ConvertImage(lib, files[k], format, outputDir))
      {
        var result := ConvertImage(lib, files[i], format, outputDir);
        lines := lines + [Report(files[i], result)];
      }
      if Sep !in format {
        forall i | 0 <= i < |files|
          ensures lines[i].Converted? ==> lines[i].name == OutputName(files[i], format)
        {
          OutputBasenameIsOutputName(files[i], format, outputDir);
        }
      }
    }
  }
}
