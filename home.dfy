// The featured cards of js/home.js: the picture and the remaining-time text.
module Home {
  import opened Wrappers
  import Countdown

  const Placeholder: string := "https://via.placeholder.com/400x300?text=No+Image"

  /** `images && images.length > 0 ? images[0] : placeholder` */
  function ImageUrl(images: Option<seq<string>>): (r: string)
    ensures images.Some? && images.value != [] ==> r == images.value[0]
    ensures images.None? || images.value == [] ==> r == Placeholder
  {
    if images.Some? && |images.value| > 0 then images.value[0] else Placeholder
  }

  /** `updateTimer` on a card: the time left until `endTime`, with " left" after it. */
  function CardText(endTime: int, now: int): string {
    Countdown.Render(Countdown.Timer(endTime - now), " left")
  }

  /** The card says "Ended" exactly when the end time is not after now. */
  lemma CardEnded(endTime: int, now: int)
    ensures CardText(endTime, now) == "Ended" <==> endTime <= now
  {
    Countdown.RenderEnded(endTime - now, " left");
  }
}
