/** The input check that the custom-prompt tab performs before it would call the
    image generator (`generate_custom` in gradio_ui.py). */
module CustomInput {
  import opened Wrappers
  import opened Whitespace

  /** The two user-facing rejections; each is raised to the UI as an error dialog. */
  datatype InputError = MissingImage | MissingPrompt
  {
    function Message(): string
    {
      match this
      case MissingImage => "Please upload an image to start!"
      case MissingPrompt => "Please enter a custom prompt!"
    }
  }

  /** Checks an uploaded image (only its presence matters) and the prompt text box.
      On success the prompt is handed on unchanged; the feature radio value is not
      checked by the handler and is not a parameter here. */
  function CheckCustom<Image>(image: Option<Image>, prompt: Option<string>): (r: Result<string, InputError>)
    ensures r == Failure(MissingImage) <==> image.None?
    ensures r == Failure(MissingPrompt) <==> image.Some? && (prompt.None? || AllSpace(prompt.value))
    ensures r.Success? <==> image.Some? && prompt.Some? && exists i :: 0 <= i < |prompt.value| && !IsSpace(prompt.value[i])
    ensures r.Success? ==> prompt == Some(r.value)
  {
    if image.None? then
      Failure(MissingImage)
    else if prompt.None? || prompt.value == "" || Strip(prompt.value) == "" then
      Failure(MissingPrompt)
    else
      Success(prompt.value)
  }
}
