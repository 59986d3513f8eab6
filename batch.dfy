/** `main()` (scripts/obsidian_to_jekyll.py:100-124): with both the vault and the blog
    directory present, every Markdown file of the vault is processed in turn and the
    ones written are counted. The blog is a map from output paths, relative to the
    blog directory and spelled as the script joins them (not normalised), to file
    contents; the files arrive in the order the directory walk yields them. */
module Batch {
  import opened Conversion

  /** A Markdown file of the vault: its stem and its text. */
  datatype NoteFile = NoteFile(stem: string, content: string)

  function OutcomeOf(f: NoteFile, env: Env): Outcome {
    ProcessNote(f.stem, f.content, env)
  }

  /** The outcomes of processing `files` one after the other. */
  function Outcomes(files: seq<NoteFile>, env: Env): seq<Outcome> {
    seq(|files|, i requires 0 <= i < |files| => OutcomeOf(files[i], env))
  }

  /** The output path of a written note, relative to the blog directory, as the
      text `collection/filename`. It is not normalised: a file name holding `..` or
      starting with `/` names a file elsewhere, which this text does not resolve. */
  function PathOf(out: Outcome): string
    requires out.Written?
  {
    Directory(out.collection) + "/" + out.filename
  }

  /** The outcome is a write, to `path`. */
  predicate WritesTo(out: Outcome, path: string) {
    out.Written? && PathOf(out) == path
  }

  /** How many of the outcomes are writes: how many times `process_obsidian_file`
      returned `True`. */
  function CountWritten(outs: seq<Outcome>): nat {
    if outs == [] then 0
    else CountWritten(outs[..|outs| - 1]) + (if outs[|outs| - 1].Written? then 1 else 0)
  }

  /** The blog after the writes, in order; a later write to the same path replaces
      an earlier one. */
  function Publish(blog: map<string, string>, outs: seq<Outcome>): map<string, string> {
    if outs == [] then blog
    else
      var before := Publish(blog, outs[..|outs| - 1]);
      var out := outs[|outs| - 1];
      if out.Written? then before[PathOf(out) := out.text] else before
  }

  /** `main`: nothing happens when the vault or the blog directory is missing;
      otherwise each file is processed and the written ones are counted. */
  method Convert(vaultExists: bool, blogExists: bool, files: seq<NoteFile>, env: Env, blog: map<string, string>)
    returns (processed: nat, published: map<string, string>)
    ensures !(vaultExists && blogExists) ==> processed == 0 && published == blog
    ensures vaultExists && blogExists ==>
              processed == CountWritten(Outcomes(files, env)) && published == Publish(blog, Outcomes(files, env))
  {
    if !vaultExists {
      return 0, blog;
    }
    if !blogExists {
      return 0, blog;
    }
    processed, published := 0, blog;
    var i := 0;
    while i < |files|
      invariant 0 <= i <= |files|
      invariant processed == CountWritten(Outcomes(files[..i], env))
      invariant published == Publish(blog, Outcomes(files[..i], env))
    {
      var out := OutcomeOf(files[i], env);
      OutcomesSnoc(files, i, env);
      CountSnoc(Outcomes(files[..i], env), out);
      PublishSnoc(blog, Outcomes(files[..i], env), out);
      if out.Written? {
        published := published[PathOf(out) := out.text];
        processed := processed + 1;
      }
      i := i + 1;
    }
    assert files[..|files|] == files;
  }

  lemma OutcomesSnoc(files: seq<NoteFile>, i: nat, env: Env)
    requires i < |files|
    ensures Outcomes(files[..i + 1], env) == Outcomes(files[..i], env) + [OutcomeOf(files[i], env)]
  {
    assert files[..i + 1] == files[..i] + [files[i]];
  }

  lemma CountSnoc(outs: seq<Outcome>, out: Outcome)
    ensures CountWritten(outs + [out]) == CountWritten(outs) + (if out.Written? then 1 else 0)
  {
    assert (outs + [out])[..|outs|] == outs;
  }

  lemma PublishSnoc(blog: map<string, string>, outs: seq<Outcome>, out: Outcome)
    ensures Publish(blog, outs + [out]) ==
              if out.Written? then Publish(blog, outs)[PathOf(out) := out.text] else Publish(blog, outs)
  {
    assert (outs + [out])[..|outs|] == outs;
  }

  /** At most one count per file. */
  lemma {:induction false} CountBounded(outs: seq<Outcome>)
    ensures CountWritten(outs) <= |outs|
  {
    if outs != [] {
      CountBounded(outs[..|outs| - 1]);
    }
  }

  /** The count is zero exactly when nothing is written. */
  lemma {:induction false} CountZero(outs: seq<Outcome>)
    ensures CountWritten(outs) == 0 <==> forall i :: 0 <= i < |outs| ==> !outs[i].Written?
  {
    if outs != [] {
      var init := outs[..|outs| - 1];
      CountZero(init);
      assert forall i :: 0 <= i < |init| ==> init[i] == outs[i];
    }
  }

  /** The count is the number of files exactly when every file is written. */
  lemma {:induction false} CountAll(outs: seq<Outcome>)
    ensures CountWritten(outs) == |outs| <==> forall i :: 0 <= i < |outs| ==> outs[i].Written?
  {
    if outs != [] {
      var init := outs[..|outs| - 1];
      CountAll(init);
      CountBounded(init);
      assert forall i :: 0 <= i < |init| ==> init[i] == outs[i];
    }
  }

  /** A path of the published blog was there before or is written to. */
  lemma {:induction false} PublishedPaths(blog: map<string, string>, outs: seq<Outcome>)
    ensures forall p :: p in Publish(blog, outs) <==>
              p in blog || exists i :: 0 <= i < |outs| && WritesTo(outs[i], p)
  {
    if outs != [] {
      var init := outs[..|outs| - 1];
      PublishedPaths(blog, init);
      assert forall i :: 0 <= i < |init| ==> init[i] == outs[i];
      forall p ensures p in Publish(blog, outs) <==>
                 p in blog || exists i :: 0 <= i < |outs| && WritesTo(outs[i], p) {
        if exists i :: 0 <= i < |outs| && WritesTo(outs[i], p) {
          var i :| 0 <= i < |outs| && WritesTo(outs[i], p);
          if i < |init| {
            assert WritesTo(init[i], p);
          }
        }
      }
    }
  }

  /** A path nothing writes to keeps its old contents. */
  lemma {:induction false} UntouchedPath(blog: map<string, string>, outs: seq<Outcome>, p: string)
    requires p in blog
    requires forall i :: 0 <= i < |outs| ==> !WritesTo(outs[i], p)
    ensures p in Publish(blog, outs) && Publish(blog, outs)[p] == blog[p]
  {
    if outs != [] {
      var init := outs[..|outs| - 1];
      assert forall i :: 0 <= i < |init| ==> init[i] == outs[i];
      UntouchedPath(blog, init, p);
    }
  }

  /** The last write to a path decides its contents. */
  lemma {:induction false} LastWriteWins(blog: map<string, string>, outs: seq<Outcome>, p: string, k: nat)
    requires k < |outs| && WritesTo(outs[k], p)
    requires forall i :: k < i < |outs| ==> !WritesTo(outs[i], p)
    ensures p in Publish(blog, outs) && Publish(blog, outs)[p] == outs[k].text
  {
    var init := outs[..|outs| - 1];
    assert forall i :: 0 <= i < |init| ==> init[i] == outs[i];
    if k < |outs| - 1 {
      LastWriteWins(blog, init, p, k);
    }
  }
}
