/** What a renderer leaves in its `St.Label`: plain text, or markup that
    `set_markup` accepted. */
module Labels {
  datatype Label = Plain(text: string) | Markup(markup: string)
}
