/** The records the notes tool passes around (poc-app/src/types.ts). */
module Types {
  import opened Util

  /** An image attached to a note; `dataUrl` is `data:<mime>;base64,<payload>`. */
  datatype EntryImage = EntryImage(id: string, mime: string, dataUrl: string, name: Option<string>)

  /** A daily note. `date` is the note's calendar day as `YYYY-MM-DD` text and
      `createdAt` a millisecond timestamp. The field is optional in the type
      declaration, but every entry the tool builds carries a list of images,
      so the model keeps it as a plain list. */
  datatype Entry = Entry(id: string, date: string, text: string, createdAt: int, images: seq<EntryImage>)

  /** The Monday and Friday of a week, as `YYYY-MM-DD` text. */
  datatype WeekRange = WeekRange(weekStart: string, weekEnd: string)

  /** A generated weekly summary. */
  datatype Summary = Summary(content: string, generatedAt: int, weekStart: string, weekEnd: string)
}
