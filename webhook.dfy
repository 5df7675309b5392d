/** The product-creation webhook (server.js lines 40-115): check the
    `updated` flag, render the three templates, write the update.  The two
    platform calls are inputs: the metadata read yields the entries or
    fails (`None`), and the write succeeds or fails. */
module Webhook {
  import opened Wrappers
  import opened Shop
  import opened Render
  import opened Gate

  /** The three templates held by the server. */
  datatype Templates = Templates(description: string, pageTitle: string, metadescription: string)

  /** The HTTP reply, and the update the handler sent, if it sent one. */
  datatype Reply = Reply(status: int, message: string, write: Option<ProductUpdate>)

  const AlreadyDoneMessage := "Produto já atualizado anteriormente"
  const CheckFailedMessage := "Erro ao verificar metafields"
  const DoneMessage := "Produto atualizado com sucesso"
  const WriteFailedMessage := "Erro ao atualizar produto"

  /** The update rendered from the templates for a product. */
  function RenderedUpdate(t: Templates, p: Product): (u: ProductUpdate)
    ensures u.bodyHtml == p.bodyHtml || '\n' !in u.bodyHtml
  {
    DescriptionHasNoLineFeed(t.description, p.title);
    BuildUpdate(RenderDescription(t.description, p.title),
                RenderText(t.pageTitle, p.title),
                RenderText(t.metadescription, p.title),
                p.bodyHtml)
  }

  /** One delivery of the product-creation event. */
  function HandleProductCreate(t: Templates, p: Product, stored: Option<seq<Metafield>>,
                               writeSucceeds: bool): (r: Reply)
    ensures stored.None? ==> r == Reply(500, CheckFailedMessage, None)
    ensures stored.Some? && AlreadyUpdated(stored.value) ==> r == Reply(200, AlreadyDoneMessage, None)
    ensures r.write.Some? <==> stored.Some? && !AlreadyUpdated(stored.value)
    ensures r.write.Some? ==> r.write.value == RenderedUpdate(t, p)
    ensures r.write.Some? ==> r.status == (if writeSucceeds then 200 else 500)
    ensures r.status == 200 || r.status == 500
  {
    match stored
    case None => Reply(500, CheckFailedMessage, None)
    case Some(ms) =>
      if AlreadyUpdated(ms) then Reply(200, AlreadyDoneMessage, None)
      else if writeSucceeds then Reply(200, DoneMessage, Some(RenderedUpdate(t, p)))
      else Reply(500, WriteFailedMessage, Some(RenderedUpdate(t, p)))
  }

  /** When the gate lets a delivery through, it writes; once that write
      has succeeded, a later delivery of the same product (with whatever
      templates) writes nothing and answers 200: deliveries that do not
      overlap update a product at most once. */
  lemma AtMostOnce(t1: Templates, t2: Templates, p: Product, ms: seq<Metafield>, later: bool)
    requires !AlreadyUpdated(ms)
    ensures var first := HandleProductCreate(t1, p, Some(ms), true);
            first.write.Some? &&
            var stored := ApplyWrites(ms, first.write.value.metafields);
            first.status == 200 &&
            HandleProductCreate(t2, p, Some(stored), later) == Reply(200, AlreadyDoneMessage, None)
  {
    var desc := RenderDescription(t1.description, p.title);
    var page := RenderText(t1.pageTitle, p.title);
    var meta := RenderText(t1.metadescription, p.title);
    UpdateMarksProduct(ms, desc, page, meta, p.bodyHtml);
  }
}
