/** The server's mutable state (server.js lines 21-25) and the four routes
    that read or write it.  The templates start empty and are overwritten
    by the front end; the generated tags start empty and are overwritten by
    the classifier route.  Platform and classifier calls are inputs: each
    yields its answer or fails (`None`), and each write succeeds or fails. */
module Routes {
  import opened Wrappers
  import opened Strings
  import opened Shop
  import opened Render
  import opened Webhook
  import opened Labels
  import opened Tags

  class Server {
    var descriptionTemplate: string
    var pageTitleTemplate: string
    var metadescriptionTemplate: string
    var generatedTags: seq<string>

    /** At most five tags are ever held. */
    predicate Valid()
      reads this
    {
      |generatedTags| <= MaxTags
    }

    /** The templates as the webhook reads them. */
    function CurrentTemplates(): Templates
      reads this
    {
      Templates(descriptionTemplate, pageTitleTemplate, metadescriptionTemplate)
    }

    constructor ()
      ensures Valid()
      ensures CurrentTemplates() == Templates([], [], [])
      ensures generatedTags == []
    {
      descriptionTemplate := [];
      pageTitleTemplate := [];
      metadescriptionTemplate := [];
      generatedTags := [];
    }

    /** `POST /update-product`: store the three templates, keep the tags. */
    method UpdateProduct(description: string, pageTitle: string, metadescription: string)
      returns (success: bool)
      requires Valid()
      modifies this
      ensures Valid()
      ensures CurrentTemplates() == Templates(description, pageTitle, metadescription)
      ensures generatedTags == old(generatedTags)
      ensures success
    {
      descriptionTemplate := description;
      pageTitleTemplate := pageTitle;
      metadescriptionTemplate := metadescription;
      success := true;
    }

    /** `POST /webhook/products/create`, rendered with the templates held
        now; the server's own state does not change. */
    method ProductsCreate(product: Product, stored: Option<seq<Metafield>>, writeSucceeds: bool)
      returns (reply: Reply)
      requires Valid()
      ensures Valid()
      ensures reply == HandleProductCreate(CurrentTemplates(), product, stored, writeSucceeds)
      ensures reply.write.Some? ==>
                reply.write.value == RenderedUpdate(CurrentTemplates(), product)
    {
      reply := HandleProductCreate(CurrentTemplates(), product, stored, writeSucceeds);
    }

    /** `POST /generate-tags`: `labels` is the classifier's ranked label
        list, `None` when the product read, the classifier call or its
        answer failed.  On success the tags become the first five values
        and the full labels are echoed; on failure nothing changes. */
    method GenerateTags(labels: Option<seq<string>>)
      returns (success: bool, echoed: Option<seq<string>>)
      requires Valid()
      modifies this
      ensures Valid()
      ensures CurrentTemplates() == old(CurrentTemplates())
      ensures success <==> labels.Some?
      ensures echoed == labels
      ensures labels.Some? ==> generatedTags == TopTags(labels.value)
      ensures labels.None? ==> generatedTags == old(generatedTags)
    {
      match labels
      case None =>
        success, echoed := false, None;
      case Some(ls) =>
        generatedTags := TopTags(ls);
        success, echoed := true, labels;
    }

    /** `POST /apply-tags`: merge the held tags into the latest product's
        tag field.  `latest` is the latest product, `None` when the read
        failed; `written` is the tag field sent, if one was sent. */
    method ApplyTags(latest: Option<Product>, writeSucceeds: bool)
      returns (success: bool, written: Option<string>)
      requires Valid()
      ensures Valid()
      ensures latest.None? ==> !success && written.None?
      ensures latest.Some? ==> written == Some(MergedField(latest.value.tags, generatedTags))
      ensures success <==> latest.Some? && writeSucceeds
    {
      if latest.None? {
        return false, None;
      }
      written := Some(MergedField(latest.value.tags, generatedTags));
      success := writeSucceeds;
    }
  }

  /** When the classifier answers with candidate labels, the tags the
      server then holds are non-empty and free of `", "`, so applying them a
      second time to the field written the first time writes the same
      field. */
  lemma GeneratedTagsApplyOnce(labels: seq<string>, field: Option<string>)
    requires forall l :: l in labels ==> l in CandidateLabels
    ensures forall g :: g in TopTags(labels) ==> g != [] && !Contains(g, TagSeparator)
    ensures MergedField(Some(MergedField(field, TopTags(labels))), TopTags(labels))
         == MergedField(field, TopTags(labels))
  {
    var tags := TopTags(labels);
    forall g | g in tags ensures g != [] && !Contains(g, TagSeparator) {
      var i :| 0 <= i < |tags| && tags[i] == g;
      assert labels[i] in labels;
      CandidateTag(labels[i]);
    }
    MergeIdempotent(field, tags);
  }
}
