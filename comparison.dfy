/** How the two copies of the pipeline differ, stated over the same platform behaviour. */
module Comparison {
  import opened Wrappers
  import opened Android
  import opened Document
  import opened MediaStore
  import opened Decoder
  import opened Naming
  import ViewModel
  import Generator

  /**
   * Both copies store the same bytes under the same name in the same new row;
   * they differ only in the pending flag, which only the view model clears,
   * and only when no exception ended the write block.
   */
  lemma SavesDifferOnlyInPending(entries: seq<Entry>, p: Platform, pages: seq<Page>)
    requires p.insertSucceeds
    ensures var vm := ViewModel.VmSave(entries, p, pages);
            var gen := Generator.GenSave(entries, p, pages);
      && |vm.entries| == |gen.entries| == |entries| + 1
      && vm.entries[..|entries|] == gen.entries[..|entries|] == entries
      && vm.entries[|entries|] == gen.entries[|entries|].(pending := vm.entries[|entries|].pending)
      && gen.entries[|entries|].pending
      && vm.entries[|entries|].pending == p.write.Throws()
  {
  }

  /** The two copies report the same success, apart from the view model's nullable file. */
  lemma SavesAgreeOnSuccess(entries: seq<Entry>, p: Platform, pages: seq<Page>)
    requires p.insertSucceeds
    ensures ViewModel.VmSave(entries, p, pages).result.Success? <==> Generator.GenSave(entries, p, pages).result.Success?
    ensures Generator.GenSave(entries, p, pages).result.Success? ==>
      ViewModel.VmSave(entries, p, pages).result.value == Some(Generator.GenSave(entries, p, pages).result.value)
  {
  }

  /**
   * On a refused insert the view model succeeds with null while the generator
   * fails; neither stores anything.
   */
  lemma RefusedInsertDiffers(entries: seq<Entry>, p: Platform, pages: seq<Page>)
    requires !p.insertSucceeds
    ensures ViewModel.VmSave(entries, p, pages).result == Success(None)
    ensures Generator.GenSave(entries, p, pages).result.Failure?
    ensures ViewModel.VmSave(entries, p, pages).entries == Generator.GenSave(entries, p, pages).entries == entries
  {
  }

  /**
   * Both conversions decode the same images and fail at the same one; only the
   * message differs: a fixed one in the view model, one naming the uri in the
   * generator.
   */
  lemma DecodeFailureMessages(p: Platform, entries: seq<Entry>, uris: seq<Uri>)
    requires |DecodedRun(p, uris)| < |uris|
    ensures ViewModel.VmGenerate(p, entries, uris).result == Failure(Exception(Some(ViewModel.LoadFailedMessage)))
    ensures Generator.GenGenerate(p, entries, uris).result
      == Failure(Exception(Some(Generator.DecodeFailedPrefix + uris[|DecodedRun(p, uris)|])))
  {
  }

  /** Two saves at different milliseconds use different names, so the second never replaces the first. */
  lemma DistinctTimestampsDistinctFiles(entries: seq<Entry>, p: Platform, q: Platform, pages: seq<Page>)
    requires p.now != q.now
    ensures ViewModel.VmSave(entries, p, pages).result.Success? && ViewModel.VmSave(entries, p, pages).result.value.Some?
         && ViewModel.VmSave(entries, q, pages).result.Success? && ViewModel.VmSave(entries, q, pages).result.value.Some?
         ==> ViewModel.VmSave(entries, p, pages).result.value.value != ViewModel.VmSave(entries, q, pages).result.value.value
  {
    FileNameInjective(p.now, q.now);
  }
}
